/**
 The mathematics of libuv's pointer heap (heap-inl.h).  A heap of n nodes is a
 sequence of n distinct nodes: node number i (counting from 1) sits at index
 i - 1, its children are numbers 2i and 2i + 1 and its parent is number i / 2.
 Nothing here reads the heap memory; PointerHeap ties sequences to pointers.
 */
module HeapShape {

  /** A timer handle: the embedded heap node, the fields the comparison reads,
      and the rest of what timer.c keeps in the handle. */
  class Timer {
    var left: Timer?
    var right: Timer?
    var parent: Timer?
    var timeout: nat
    var startId: nat
    var repeat: nat
    var hasCallback: bool
    var active: bool
    var closing: bool

    /** The memory of a handle. */
    constructor ()
      ensures timeout == 0 && repeat == 0 && startId == 0 && !hasCallback && !active && !closing
    {
      left, right, parent := null, null, null;
      timeout, startId, repeat := 0, 0, 0;
      hasCallback, active, closing := false, false, false;
    }
  }

  datatype Key = Key(timeout: nat, startId: nat)

  /** timer_less_than: by timeout, then by start_id. */
  predicate Less(a: Key, b: Key) {
    if a.timeout < b.timeout then true
    else if b.timeout < a.timeout then false
    else a.startId < b.startId
  }

  /** The three links of a heap node and the key it is compared by. */
  datatype Entry = Entry(left: Timer?, right: Timer?, parent: Timer?, key: Key)

  type Links = map<Timer, Entry>

  /** Node number i of q, or NULL outside 1..|q|. */
  function At(q: seq<Timer>, i: int): Timer? {
    if 1 <= i <= |q| then q[i - 1] else null
  }

  predicate Distinct(q: seq<Timer>) {
    forall i, j :: 0 <= i < j < |q| ==> q[i] != q[j]
  }

  /** The entry of node number i links the right neighbours. */
  predicate EntryFits(q: seq<Timer>, i: int, e: Entry) {
    e.left == At(q, 2 * i) && e.right == At(q, 2 * i + 1) && e.parent == At(q, i / 2)
  }

  function NodeSet(q: seq<Timer>): set<Timer> {
    set i | 0 <= i < |q| :: q[i]
  }

  predicate Fits(m: Links, q: seq<Timer>, i: int)
    requires 1 <= i <= |q|
  {
    q[i - 1] in m && EntryFits(q, i, m[q[i - 1]])
  }

  /** m holds exactly the links of the complete tree q. */
  predicate Spells(m: Links, q: seq<Timer>) {
    && Distinct(q)
    && m.Keys == NodeSet(q)
    && forall i :: 1 <= i <= |q| ==> Fits(m, q, i)
  }

  // ---------- the path to a node ----------

  /** The number reached from number i by following k bits of path, lowest first. */
  function Follow(i: nat, path: nat, k: nat): nat
    decreases k
  {
    if k == 0 then i else Follow(2 * i + path % 2, path / 2, k - 1)
  }

  function Pow2(k: nat): nat {
    if k == 0 then 1 else 2 * Pow2(k - 1)
  }

  /** A walk never goes up. */
  lemma {:induction false} FollowAbove(i: nat, path: nat, k: nat)
    requires i >= 1
    ensures Follow(i, path, k) >= i
    ensures k > 0 ==> Follow(i, path, k) >= 2 * i
    decreases k
  {
    if k > 0 { FollowAbove(2 * i + path % 2, path / 2, k - 1); }
  }

  // ---------- swapping a node with its parent ----------

  function SetParent(m: Links, n: Timer?, v: Timer?): Links {
    if n == null || n !in m then m else m[n := m[n].(parent := v)]
  }

  /** p's link to x now refers to y. */
  function SetChild(m: Links, p: Timer?, x: Timer, y: Timer): Links {
    if p == null || p !in m then m
    else m[p := if m[p].left == x then m[p].(left := y) else m[p].(right := y)]
  }

  /** The first half of heap_node_swap: the two structs trade places, each is
      linked to the other, and the child's old sibling is found. */
  function SwapCore(m: Links, parent: Timer, child: Timer): (Links, Timer?)
    requires parent in m && child in m
  {
    var m1 := m[parent := m[child].(key := m[parent].key)][child := m[parent].(key := m[child].key)];
    var m2 := m1[parent := m1[parent].(parent := child)];
    if m2[child].left == child then (m2[child := m2[child].(left := parent)], m2[child].right)
    else (m2[child := m2[child].(right := parent)], m2[child].left)
  }

  /** The writes of heap_node_swap, in order. */
  function SwapWrites(m: Links, parent: Timer, child: Timer): Links
    requires parent in m && child in m
  {
    var core := SwapCore(m, parent, child);
    var m1 := SetParent(core.0, core.1, child);
    var m2 := SetParent(m1, m1[parent].left, parent);
    var m3 := SetParent(m2, m2[parent].right, parent);
    SetChild(m3, m3[child].parent, parent, child)
  }

  /** q with node number c and its parent exchanged. */
  function Swapped<T>(q: seq<T>, c: int): seq<T>
    requires 2 <= c <= |q|
  {
    q[c / 2 - 1 := q[c - 1]][c - 1 := q[c / 2 - 1]]
  }

  lemma {:induction false} SwappedAt(q: seq<Timer>, c: int, i: int)
    requires 2 <= c <= |q|
    ensures At(Swapped(q, c), i) == if i == c then q[c / 2 - 1] else if i == c / 2 then q[c - 1] else At(q, i)
  {
  }

  lemma {:induction false} SwappedSame(q: seq<Timer>, c: int)
    requires 2 <= c <= |q| && Distinct(q)
    ensures Distinct(Swapped(q, c)) && NodeSet(Swapped(q, c)) == NodeSet(q)
  {
    var q' := Swapped(q, c);
    forall x | x in NodeSet(q) ensures x in NodeSet(q') {
      var i :| 0 <= i < |q| && q[i] == x;
      assert q'[if i == c - 1 then c / 2 - 1 else if i == c / 2 - 1 then c - 1 else i] == x;
    }
  }

  /** Distinct numbers hold distinct nodes. */
  lemma {:induction false} AtDistinct(q: seq<Timer>, i: int, j: int)
    requires Distinct(q) && 1 <= i <= |q| && At(q, i) == At(q, j)
    ensures i == j
  {
  }

  /** The nodes around an exchange: parent, child, the child's sibling and
      children, and the grandparent; NULL where there is none. */
  datatype Around = Around(p: Timer, c: Timer, s: Timer?, l: Timer?, r: Timer?, g: Timer?, onLeft: bool)

  function AroundOf(q: seq<Timer>, c: int): Around
    requires 2 <= c <= |q|
  {
    Around(q[c / 2 - 1], q[c - 1], At(q, if c % 2 == 0 then c + 1 else c - 1), At(q, 2 * c), At(q, 2 * c + 1),
           At(q, c / 4), c % 2 == 0)
  }

  /** Two nodes that are not one, unless both are NULL. */
  predicate Differ(a: Timer?, b: Timer?) { a == null || a != b }

  predicate AroundOk(m: Links, a: Around) {
    && a.p in m && a.c in m && a.p != a.c
    && Differ(a.s, a.p) && Differ(a.s, a.c) && Differ(a.l, a.p) && Differ(a.l, a.c) && Differ(a.r, a.p) && Differ(a.r, a.c)
    && Differ(a.g, a.p) && Differ(a.g, a.c) && Differ(a.l, a.s) && Differ(a.r, a.s) && Differ(a.l, a.r)
    && Differ(a.g, a.s) && Differ(a.g, a.l) && Differ(a.g, a.r)
    && (a.s != null ==> a.s in m) && (a.l != null ==> a.l in m) && (a.r != null ==> a.r in m) && (a.g != null ==> a.g in m)
    && m[a.p].left == (if a.onLeft then a.c else a.s) && m[a.p].right == (if a.onLeft then a.s else a.c)
    && m[a.p].parent == a.g
    && m[a.c].left == a.l && m[a.c].right == a.r && m[a.c].parent == a.p
  }

  lemma {:induction false} AroundOfOk(m: Links, q: seq<Timer>, c: int)
    requires Spells(m, q) && 2 <= c <= |q|
    ensures AroundOk(m, AroundOf(q, c))
  {
    assert Fits(m, q, c / 2) && Fits(m, q, c);
    assert forall i :: 1 <= i <= |q| ==> Fits(m, q, i);
    forall i, j | 1 <= i <= |q| && i != j
      ensures At(q, i) != At(q, j)
    {
      if At(q, i) == At(q, j) { AtDistinct(q, i, j); }
    }
    assert c / 2 / 2 == c / 4;
  }

  /** The entry of n after the exchange. */
  function SwapEntry(m: Links, a: Around, n: Timer): Entry
    requires n in m && a.p in m && a.c in m
  {
    if n == a.c then Entry(if a.onLeft then a.p else a.s, if a.onLeft then a.s else a.p, a.g, m[n].key)
    else if n == a.p then Entry(a.l, a.r, a.c, m[n].key)
    else if n == a.s then m[n].(parent := a.c)
    else if n == a.l || n == a.r then m[n].(parent := a.p)
    else if n == a.g then (if m[n].left == a.p then m[n].(left := a.c) else m[n].(right := a.c))
    else m[n]
  }

  /** What one write of a parent link does to each entry. */
  lemma {:induction false} SetParentAt(m: Links, n: Timer?, v: Timer?, k: Timer)
    requires k in m && (n != null ==> n in m)
    ensures SetParent(m, n, v).Keys == m.Keys
    ensures SetParent(m, n, v)[k] == if n == k then m[k].(parent := v) else m[k]
  {
  }

  lemma {:induction false} SetChildAt(m: Links, p: Timer?, x: Timer, y: Timer, k: Timer)
    requires k in m && (p != null ==> p in m)
    ensures SetChild(m, p, x, y).Keys == m.Keys
    ensures SetChild(m, p, x, y)[k]
            == if p != k then m[k] else if m[k].left == x then m[k].(left := y) else m[k].(right := y)
  {
  }

  lemma {:induction false} SwapEffect(m: Links, a: Around, n: Timer)
    requires AroundOk(m, a) && n in m
    ensures SwapWrites(m, a.p, a.c).Keys == m.Keys
    ensures SwapWrites(m, a.p, a.c)[n] == SwapEntry(m, a, n)
  {
    hide SwapWrites, SetParent, SetChild, SwapCore;
    SwapReads(m, a);
    var m4 := m[a.p := Entry(a.l, a.r, a.c, m[a.p].key)]
               [a.c := Entry(if a.onLeft then a.p else a.s, if a.onLeft then a.s else a.p, a.g, m[a.c].key)];
    assert m4.Keys == m.Keys;
    SetParentAt(m4, a.s, a.c, n);
    var m5 := SetParent(m4, a.s, a.c);
    SetParentAt(m5, a.l, a.p, n);
    var m6 := SetParent(m5, a.l, a.p);
    SetParentAt(m6, a.r, a.p, n);
    var m7 := SetParent(m6, a.r, a.p);
    SetChildAt(m7, a.g, a.p, a.c, n);
    SwapWritesAre(m, a);
  }

  /** What each statement of heap_node_swap finds when it reads a link. */
  lemma {:induction false} SwapReads(m: Links, a: Around)
    requires AroundOk(m, a)
    ensures var core := SwapCore(m, a.p, a.c);
            && core.0 == m[a.p := Entry(a.l, a.r, a.c, m[a.p].key)]
                          [a.c := Entry(if a.onLeft then a.p else a.s, if a.onLeft then a.s else a.p, a.g, m[a.c].key)]
            && core.1 == a.s
            && core.0.Keys == m.Keys
    ensures var m1 := SetParent(SwapCore(m, a.p, a.c).0, a.s, a.c); m1.Keys == m.Keys && m1[a.p].left == a.l
    ensures var m2 := SetParent(SetParent(SwapCore(m, a.p, a.c).0, a.s, a.c), a.l, a.p); m2.Keys == m.Keys && m2[a.p].right == a.r
    ensures var m3 := SetParent(SetParent(SetParent(SwapCore(m, a.p, a.c).0, a.s, a.c), a.l, a.p), a.r, a.p);
            m3.Keys == m.Keys && m3[a.c].parent == a.g
  {
    hide SetParent;
    var core := SwapCore(m, a.p, a.c).0;
    assert core.Keys == m.Keys;
    SetParentAt(core, a.s, a.c, a.p);
    SetParentAt(core, a.s, a.c, a.c);
    var m1 := SetParent(core, a.s, a.c);
    SetParentAt(m1, a.l, a.p, a.p);
    SetParentAt(m1, a.l, a.p, a.c);
    var m2 := SetParent(m1, a.l, a.p);
    SetParentAt(m2, a.r, a.p, a.c);
  }

  lemma {:induction false} SwapWritesAre(m: Links, a: Around)
    requires AroundOk(m, a)
    ensures SwapWrites(m, a.p, a.c)
            == SetChild(SetParent(SetParent(SetParent(SwapCore(m, a.p, a.c).0, a.s, a.c), a.l, a.p), a.r, a.p), a.g, a.p, a.c)
  {
    hide SetParent, SetChild, SwapCore;
    SwapReads(m, a);
  }

  lemma {:induction false} SwapFits(m: Links, q: seq<Timer>, c: int, i: int)
    requires Distinct(q) && 2 <= c <= |q| && 1 <= i <= |q| && Fits(m, q, i)
    requires AroundOk(m, AroundOf(q, c))
    ensures EntryFits(Swapped(q, c), i, SwapEntry(m, AroundOf(q, c), Swapped(q, c)[i - 1]))
  {
    hide Distinct, Swapped;
    assert c / 2 / 2 == c / 4;
    assert i / 2 == c ==> i == 2 * c || i == 2 * c + 1;
    assert i / 2 == c / 2 ==> i == c || i == if c % 2 == 0 then c + 1 else c - 1;
    assert i == c / 4 <==> 2 * i == c / 2 || 2 * i + 1 == c / 2;
    var a := AroundOf(q, c);
    var n := At(Swapped(q, c), i);
    SwappedAt(q, c, i);
    SwappedAt(q, c, 2 * i);
    SwappedAt(q, c, 2 * i + 1);
    SwappedAt(q, c, i / 2);
    if i == c {
      assert n == a.p;
    } else if i == c / 2 {
      assert n == a.c;
    } else {
      assert n == At(q, i);
      if n == a.p { AtDistinct(q, i, c / 2); }
      else if n == a.c { AtDistinct(q, i, c); }
      else if n == a.s { AtDistinct(q, i, if c % 2 == 0 then c + 1 else c - 1); }
      else if n == a.l { AtDistinct(q, i, 2 * c); }
      else if n == a.r { AtDistinct(q, i, 2 * c + 1); }
      else if n == a.g {
        AtDistinct(q, i, c / 4);
        if m[n].left == a.p { AtDistinct(q, c / 2, 2 * i); }
      }
    }
  }

  lemma {:induction false} SetParentChild(m: Links, n: Timer?, v: Timer)
    requires v in m && (n != null ==> n in m)
    ensures SetParent(m, n, v)[v].right == m[v].right
  {
  }

  lemma {:induction false} SpellsAre(q: seq<Timer>, m: Links)
    requires Distinct(q) && m.Keys == NodeSet(q)
    requires forall i :: 1 <= i <= |q| ==> Fits(m, q, i)
    ensures Spells(m, q)
  {
  }

  lemma {:induction false} InNodeSet(q: seq<Timer>, i: int)
    requires 0 <= i < |q|
    ensures q[i] in NodeSet(q)
  {
  }

  /** heap_node_swap turns the links of q into the links of q with the two nodes exchanged. */
  lemma {:induction false} SwapSpells(m: Links, q: seq<Timer>, c: int)
    requires Spells(m, q) && 2 <= c <= |q|
    ensures q[c / 2 - 1] in m && q[c - 1] in m && q[c / 2 - 1] != q[c - 1]
    ensures SwapWrites(m, q[c / 2 - 1], q[c - 1]).Keys == m.Keys
    ensures Spells(SwapWrites(m, q[c / 2 - 1], q[c - 1]), Swapped(q, c))
    ensures KeysOf(SwapWrites(m, q[c / 2 - 1], q[c - 1]), Swapped(q, c)) == Swapped(KeysOf(m, q), c)
  {
    hide SwapWrites, Spells, AroundOk, EntryFits, NodeSet, SwapEntry, KeysOf;
    var a := AroundOf(q, c);
    AroundOfOk(m, q, c);
    SpellsFacts(m, q);
    AroundFacts(m, a);
    SwappedSame(q, c);
    var q' := Swapped(q, c);
    var m' := SwapWrites(m, a.p, a.c);
    SwapEffect(m, a, a.p);
    forall i | 0 <= i < |q| ensures q'[i] in m { InNodeSet(q', i); }
    forall i | 0 <= i < |q| ensures m'[q'[i]].key == m[q'[i]].key {
      SwapEffect(m, a, q'[i]);
      SwapEntryKey(m, a, q'[i]);
    }
    forall i | 1 <= i <= |q| ensures Fits(m', q', i) {
      SwapEffect(m, a, q'[i - 1]);
      SpellsAt(m, q, i);
      SwapFits(m, q, c, i);
    }
    SpellsAre(q', m');
    SwappedKeys(m, m', q, q', c);
  }

  lemma {:induction false} SwapEntryKey(m: Links, a: Around, n: Timer)
    requires n in m && a.p in m && a.c in m
    ensures SwapEntry(m, a, n).key == m[n].key
  {
  }

  lemma {:induction false} SpellsAt(m: Links, q: seq<Timer>, i: int)
    requires Spells(m, q) && 1 <= i <= |q|
    ensures Fits(m, q, i)
  {
  }

  lemma {:induction false} SpellsEntry(m: Links, q: seq<Timer>, i: int)
    requires Spells(m, q) && 1 <= i <= |q|
    ensures q[i - 1] in m && EntryFits(q, i, m[q[i - 1]])
  {
    assert Fits(m, q, i);
  }

  lemma {:induction false} SwappedKeys(m: Links, m': Links, q: seq<Timer>, q': seq<Timer>, c: int)
    requires 2 <= c <= |q| && q' == Swapped(q, c)
    requires forall i :: 0 <= i < |q| ==> q[i] in m
    requires forall i :: 0 <= i < |q| ==> q'[i] in m && q'[i] in m' && m'[q'[i]].key == m[q'[i]].key
    ensures KeysOf(m', q') == Swapped(KeysOf(m, q), c)
  {
  }

  lemma {:induction false} AroundFacts(m: Links, a: Around)
    requires AroundOk(m, a)
    ensures a.p in m && a.c in m && a.p != a.c && m[a.c].parent == a.p
    ensures (a.s != null ==> a.s in m) && (a.l != null ==> a.l in m) && (a.r != null ==> a.r in m) && (a.g != null ==> a.g in m)
  {
  }

  lemma {:induction false} SpellsFacts(m: Links, q: seq<Timer>)
    requires Spells(m, q)
    ensures Distinct(q) && m.Keys == NodeSet(q)
    ensures forall i :: 0 <= i < |q| ==> q[i] in m
  {
    forall i | 0 <= i < |q| ensures q[i] in m { InNodeSet(q, i); }
  }

  // ---------- the bottom row and replacement ----------

  /** The writes that link x as node number |q| + 1. */
  function AppendWrites(m: Links, q: seq<Timer>, x: Timer, k: Key): Links {
    var number := |q| + 1;
    var p := At(q, number / 2);
    var m1 := m[x := Entry(null, null, p, k)];
    if p == null || p !in m1 then m1
    else m1[p := if number % 2 == 1 then m1[p].(right := x) else m1[p].(left := x)]
  }

  lemma {:induction false} AppendFits(m: Links, q: seq<Timer>, x: Timer, k: Key, i: int)
    requires Spells(m, q) && x !in m && 1 <= i <= |q| + 1
    ensures Fits(AppendWrites(m, q, x, k), q + [x], i)
  {
    SpellsFacts(m, q);
    var number := |q| + 1;
    assert number >= 2 ==> 1 <= number / 2 <= |q|;
    if i <= |q| {
      SpellsAt(m, q, i);
      assert i == number / 2 <==> 2 * i == number || 2 * i + 1 == number;
      if number >= 2 && q[i - 1] == At(q, number / 2) { AtDistinct(q, i, number / 2); }
      assert (q + [x])[i - 1] == q[i - 1];
    }
  }

  lemma {:induction false} AppendSpells(m: Links, q: seq<Timer>, x: Timer, k: Key)
    requires Spells(m, q) && x !in m
    ensures Spells(AppendWrites(m, q, x, k), q + [x]) && AppendWrites(m, q, x, k).Keys == m.Keys + {x}
    ensures NodeSet(q + [x]) == NodeSet(q) + {x}
    ensures KeysOf(AppendWrites(m, q, x, k), q + [x]) == KeysOf(m, q) + [k]
  {
    var q', m' := q + [x], AppendWrites(m, q, x, k);
    SpellsFacts(m, q);
    AppendSet(q, x);
    assert m'.Keys == m.Keys + {x};
    forall i | 1 <= i <= |q'| ensures Fits(m', q', i) { AppendFits(m, q, x, k, i); }
    assert Distinct(q');
    assert KeysOf(m', q') == KeysOf(m, q) + [k];
  }

  lemma {:induction false} AppendSet(q: seq<Timer>, x: Timer)
    ensures NodeSet(q + [x]) == NodeSet(q) + {x}
  {
    var q' := q + [x];
    assert q'[|q|] == x;
    forall y | y in NodeSet(q) ensures y in NodeSet(q') {
      var i :| 0 <= i < |q| && q[i] == y;
      assert q'[i] == y;
    }
  }

  /** The write that unlinks the last node, which then leaves the heap. */
  function DropWrites(m: Links, q: seq<Timer>): Links
    requires |q| > 0
  {
    var number := |q|;
    var p := At(q, number / 2);
    var m1 := if p == null || p !in m then m
              else m[p := if number % 2 == 1 then m[p].(right := null) else m[p].(left := null)];
    m1 - {q[|q| - 1]}
  }

  lemma {:induction false} DropFits(m: Links, q: seq<Timer>, i: int)
    requires Spells(m, q) && 1 <= i < |q|
    ensures Fits(DropWrites(m, q), q[..|q| - 1], i)
    ensures DropWrites(m, q)[q[i - 1]].key == m[q[i - 1]].key
  {
    hide Spells, NodeSet;
    var number := |q|;
    SpellsFacts(m, q);
    SpellsAt(m, q, i);
    assert i == number / 2 <==> 2 * i == number || 2 * i + 1 == number;
    if q[i - 1] == At(q, number / 2) { AtDistinct(q, i, number / 2); }
    assert q[i - 1] != q[number - 1];
    assert number >= 2 ==> 1 <= number / 2 < number;
  }

  lemma {:induction false} DropSpells(m: Links, q: seq<Timer>)
    requires Spells(m, q) && |q| > 0
    ensures Spells(DropWrites(m, q), q[..|q| - 1]) && DropWrites(m, q).Keys == m.Keys - {q[|q| - 1]}
    ensures NodeSet(q[..|q| - 1]) == NodeSet(q) - {q[|q| - 1]}
    ensures KeysOf(DropWrites(m, q), q[..|q| - 1]) == KeysOf(m, q)[..|q| - 1]
  {
    hide Fits, Spells;
    var number := |q|;
    var q', m' := q[..number - 1], DropWrites(m, q);
    SpellsFacts(m, q);
    AppendSet(q', q[number - 1]);
    assert q == q' + [q[number - 1]];
    assert q[number - 1] !in NodeSet(q');
    assert m'.Keys == m.Keys - {q[number - 1]};
    forall i | 1 <= i <= |q'| ensures Fits(m', q', i) { DropFits(m, q, i); }
    forall i | 0 <= i < |q'| ensures q'[i] in m' && m'[q'[i]].key == m[q[i]].key {
      InNodeSet(q', i);
      DropFits(m, q, i + 1);
    }
    SpellsAre(q', m');
    assert KeysOf(m', q') == KeysOf(m, q)[..number - 1];
  }

  /** The writes that put x where node is, which then leaves the heap. */
  function ReplaceWrites(m: Links, node: Timer, x: Timer, k: Key): Links
    requires node in m
  {
    var m1 := m[x := m[node].(key := k)];
    var m2 := SetParent(m1, m1[x].left, x);
    var m3 := SetParent(m2, m2[x].right, x);
    SetChild(m3, m[node].parent, node, x) - {node}
  }

  /** The entry of n once x has taken the place of node. */
  function ReplaceEntry(m: Links, node: Timer, x: Timer, k: Key, n: Timer): Entry
    requires node in m && (n in m || n == x)
  {
    if n == x then m[node].(key := k)
    else if n == m[node].left || n == m[node].right then m[n].(parent := x)
    else if n == m[node].parent then (if m[n].left == node then m[n].(left := x) else m[n].(right := x))
    else m[n]
  }

  lemma {:induction false} ReplaceEffect(m: Links, node: Timer, x: Timer, k: Key, n: Timer)
    requires node in m && x !in m && (n in m || n == x) && n != node
    requires Differ(m[node].left, node) && Differ(m[node].right, node) && Differ(m[node].parent, node)
    requires Differ(m[node].left, m[node].right) && Differ(m[node].parent, m[node].left) && Differ(m[node].parent, m[node].right)
    requires m[node].left != null ==> m[node].left in m
    requires m[node].right != null ==> m[node].right in m
    requires m[node].parent != null ==> m[node].parent in m
    ensures ReplaceWrites(m, node, x, k).Keys == m.Keys - {node} + {x}
    ensures ReplaceWrites(m, node, x, k)[n] == ReplaceEntry(m, node, x, k, n)
  {
    hide SetParent, SetChild;
    var e := m[node];
    var m1 := m[x := e.(key := k)];
    SetParentAt(m1, e.left, x, x);
    SetParentAt(m1, e.left, x, n);
    var m2 := SetParent(m1, e.left, x);
    SetParentAt(m2, e.right, x, n);
    var m3 := SetParent(m2, e.right, x);
    SetChildAt(m3, e.parent, node, x, n);
  }

  lemma {:induction false} ReplacePlace(m: Links, q: seq<Timer>, j: int, x: Timer, k: Key, i: int)
    requires Distinct(q) && 1 <= j <= |q| && 1 <= i <= |q| && Fits(m, q, i) && Fits(m, q, j) && x !in m
    ensures EntryFits(q[j - 1 := x], i, ReplaceEntry(m, q[j - 1], x, k, q[j - 1 := x][i - 1]))
    ensures ReplaceEntry(m, q[j - 1], x, k, q[j - 1 := x][i - 1]).key == if i == j then k else m[q[i - 1]].key
  {
    hide Distinct;
    var node := q[j - 1];
    assert i / 2 == j <==> i == 2 * j || i == 2 * j + 1;
    assert i == j / 2 <==> 2 * i == j || 2 * i + 1 == j;
    if i != j {
      var n := q[i - 1];
      if n == At(q, 2 * j) { AtDistinct(q, i, 2 * j); }
      else if n == At(q, 2 * j + 1) { AtDistinct(q, i, 2 * j + 1); }
      else if n == At(q, j / 2) {
        AtDistinct(q, i, j / 2);
        if m[n].left == node { AtDistinct(q, j, 2 * i); }
      }
    }
  }

  lemma {:induction false} ReplaceFits(m: Links, q: seq<Timer>, j: int, x: Timer, k: Key, i: int)
    requires Spells(m, q) && 1 <= j <= |q| && x !in m && 1 <= i <= |q|
    ensures q[j - 1] in m
    ensures ReplaceWrites(m, q[j - 1], x, k).Keys == m.Keys - {q[j - 1]} + {x}
    ensures Fits(ReplaceWrites(m, q[j - 1], x, k), q[j - 1 := x], i)
    ensures ReplaceWrites(m, q[j - 1], x, k)[q[j - 1 := x][i - 1]].key == if i == j then k else m[q[i - 1]].key
  {
    hide ReplaceWrites, Spells, ReplaceEntry;
    SpellsFacts(m, q);
    SpellsAt(m, q, i);
    SpellsAt(m, q, j);
    NeighboursDiffer(q, j);
    ReplacePlace(m, q, j, x, k, i);
    ReplaceEffect(m, q[j - 1], x, k, q[j - 1 := x][i - 1]);
  }

  lemma {:induction false} NeighboursDiffer(q: seq<Timer>, j: int)
    requires Distinct(q) && 1 <= j <= |q|
    ensures Differ(At(q, 2 * j), q[j - 1]) && Differ(At(q, 2 * j + 1), q[j - 1]) && Differ(At(q, j / 2), q[j - 1])
    ensures Differ(At(q, 2 * j), At(q, 2 * j + 1)) && Differ(At(q, j / 2), At(q, 2 * j)) && Differ(At(q, j / 2), At(q, 2 * j + 1))
  {
  }

  lemma {:induction false} ReplaceSpells(m: Links, q: seq<Timer>, j: int, x: Timer, k: Key)
    requires Spells(m, q) && 1 <= j <= |q| && x !in m
    ensures q[j - 1] in m
    ensures Spells(ReplaceWrites(m, q[j - 1], x, k), q[j - 1 := x])
    ensures ReplaceWrites(m, q[j - 1], x, k).Keys == m.Keys - {q[j - 1]} + {x}
    ensures NodeSet(q[j - 1 := x]) == NodeSet(q) - {q[j - 1]} + {x}
    ensures KeysOf(ReplaceWrites(m, q[j - 1], x, k), q[j - 1 := x]) == KeysOf(m, q)[j - 1 := k]
  {
    hide ReplaceWrites, Fits;
    SpellsFacts(m, q);
    var q' := q[j - 1 := x];
    ReplaceSet(q, j, x);
    ReplaceFits(m, q, j, x, k, j);
    var m' := ReplaceWrites(m, q[j - 1], x, k);
    forall i | 1 <= i <= |q| ensures Fits(m', q', i) { ReplaceFits(m, q, j, x, k, i); }
    forall i | 0 <= i < |q| ensures q'[i] in m' && m'[q'[i]].key == if i == j - 1 then k else m[q[i]].key {
      InNodeSet(q', i);
      ReplaceFits(m, q, j, x, k, i + 1);
    }
    assert KeysOf(m', q') == KeysOf(m, q)[j - 1 := k];
  }

  lemma {:induction false} ReplaceSet(q: seq<Timer>, j: int, x: Timer)
    requires Distinct(q) && 1 <= j <= |q| && x !in NodeSet(q)
    ensures NodeSet(q[j - 1 := x]) == NodeSet(q) - {q[j - 1]} + {x}
    ensures Distinct(q[j - 1 := x])
  {
    var q' := q[j - 1 := x];
    assert q'[j - 1] == x;
    forall y | y in NodeSet(q) && y != q[j - 1] ensures y in NodeSet(q') {
      var i :| 0 <= i < |q| && q[i] == y;
      assert q'[i] == y;
    }
    forall i | 0 <= i < |q| ensures q[i] != x { InNodeSet(q, i); }
  }

  // ---------- order ----------

  /** The keys in node-number order (a node outside m has no key of its own). */
  function KeysOf(m: Links, q: seq<Timer>): (ks: seq<Key>)
    ensures |ks| == |q|
  {
    seq(|q|, i requires 0 <= i < |q| => if q[i] in m then m[q[i]].key else Key(0, 0))
  }

  /** Node number i is not less than its parent. */
  predicate Settled(ks: seq<Key>, i: int)
    requires 2 <= i <= |ks|
  {
    !Less(ks[i - 1], ks[i / 2 - 1])
  }

  /** Min-heap order. */
  predicate HeapOrder(ks: seq<Key>) {
    forall i :: 2 <= i <= |ks| ==> Settled(ks, i)
  }

  /** Heap order with node number h left out: every other edge is settled and
      h's children are not less than h's parent. */
  predicate OrderAround(ks: seq<Key>, h: int) {
    && 1 <= h <= |ks|
    && (forall i :: 2 <= i <= |ks| && i != h && i / 2 != h ==> Settled(ks, i))
    && (h >= 2 ==> forall i :: 2 <= i <= |ks| && i / 2 == h ==> !Less(ks[i - 1], ks[h / 2 - 1]))
  }

  predicate BelowSettled(ks: seq<Key>, h: int) {
    forall i :: 2 <= i <= |ks| && i / 2 == h ==> Settled(ks, i)
  }

  /** One step up: the rising node was less than its parent. */
  lemma {:induction false} StepUp(ks: seq<Key>, c: int)
    requires OrderAround(ks, c) && BelowSettled(ks, c) && c >= 2 && !Settled(ks, c)
    ensures OrderAround(Swapped(ks, c), c / 2) && BelowSettled(Swapped(ks, c), c / 2)
  {
    var ks' := Swapped(ks, c);
    forall i | 2 <= i <= |ks| && i != c / 2 ensures Settled(ks', i) {
      if i != c && i / 2 != c { assert Settled(ks, i); }
    }
    forall i | 2 <= i <= |ks| && i / 2 == c / 2 && c / 2 >= 2 ensures !Less(ks'[i - 1], ks'[c / 2 / 2 - 1]) {
      assert Settled(ks, c / 2);
      if i != c { assert Settled(ks, i); }
    }
  }

  /** One step down: node number c is the least of the sinking node and its children. */
  lemma {:induction false} StepDown(ks: seq<Key>, c: int)
    requires 2 <= c <= |ks| && OrderAround(ks, c / 2) && !Settled(ks, c)
    requires forall i :: 2 <= i <= |ks| && i / 2 == c / 2 ==> !Less(ks[i - 1], ks[c - 1])
    ensures OrderAround(Swapped(ks, c), c) && Settled(Swapped(ks, c), c)
  {
    var ks' := Swapped(ks, c);
    forall i | 2 <= i <= |ks| && i / 2 != c ensures Settled(ks', i) {
      if i != c / 2 && i / 2 != c / 2 { assert Settled(ks, i); }
    }
    forall i | 2 <= i <= |ks| && i / 2 == c ensures !Less(ks'[i - 1], ks'[c / 2 - 1]) {
      assert Settled(ks, i);
    }
  }

  /** In a heap no node is less than the root. */
  lemma {:induction false} RootLeast(ks: seq<Key>, i: int)
    requires HeapOrder(ks) && 1 <= i <= |ks|
    ensures !Less(ks[i - 1], ks[0])
    decreases i
  {
    if i >= 2 {
      RootLeast(ks, i / 2);
      assert Settled(ks, i);
    }
  }
}
