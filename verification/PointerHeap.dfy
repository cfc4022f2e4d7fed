module PointerHeap {
  import opened HeapShape

  /** The loops that turn a node number into a path: k bits, and 32 of them are
      enough for any 32-bit count. */
  method PathTo(number: nat) returns (path: nat, k: nat)
    requires number >= 1
    ensures Follow(1, path, k) == number
    ensures path < Pow2(k) <= number
  {
    path, k := 0, 0;
    var n := number;
    while n >= 2
      invariant Follow(n, path, k) == number && n >= 1
      invariant path < Pow2(k) && Pow2(k) * n <= number
    {
      PathStep(number, n, path, k);
      path, k, n := 2 * path + n % 2, k + 1, n / 2;
    }
  }

  /** One more bit of the path: it is still within the bits of number. */
  lemma {:induction false} PathStep(number: nat, n: nat, path: nat, k: nat)
    requires n >= 2 && Follow(n, path, k) == number && path < Pow2(k) && Pow2(k) * n <= number
    ensures Follow(n / 2, 2 * path + n % 2, k + 1) == number
    ensures 2 * path + n % 2 < Pow2(k + 1)
    ensures Pow2(k + 1) * (n / 2) <= number
  {
    var path' := 2 * path + n % 2;
    assert Follow(n / 2, path', k + 1) == Follow(2 * (n / 2) + path' % 2, path' / 2, k);
    calc {
      Pow2(k + 1) * (n / 2);
      (2 * Pow2(k)) * (n / 2);
      Pow2(k) * (2 * (n / 2));
      <= { MulMonotone(Pow2(k), 2 * (n / 2), n); }
      Pow2(k) * n;
    }
  }

  lemma {:induction false} MulMonotone(a: nat, b: nat, c: nat)
    requires b <= c
    ensures a * b <= a * c
  {
  }

  lemma {:induction false} FollowStep(i: nat, path: nat, k: nat)
    requires i >= 1 && k > 0
    ensures Follow(i, path, k) == Follow(2 * i + path % 2, path / 2, k - 1) >= 2 * i + path % 2
  {
    FollowAbove(2 * i + path % 2, path / 2, k - 1);
  }

  lemma {:induction false} FollowNone(i: nat, path: nat)
    ensures Follow(i, path, 0) == i
  {
  }

  ghost function One(n: Timer?): set<Timer> { if n == null then {} else {n} }

  /** What a pointer to a link points at: heap->min, or a node's left or right. */
  datatype Link = MinLink | LeftOf(node: Timer) | RightOf(node: Timer)

  /** The link that holds node number i of q. */
  ghost function LinkTo(q: seq<Timer>, i: nat): Link
    requires i >= 1 && (i == 1 || i / 2 <= |q|)
  {
    if i == 1 then MinLink else if i % 2 == 0 then LeftOf(q[i / 2 - 1]) else RightOf(q[i / 2 - 1])
  }

  function StoreAt(m: Links, link: Link, v: Timer?): Links
    requires !link.MinLink? ==> link.node in m
  {
    match link
    case MinLink => m
    case LeftOf(p) => m[p := m[p].(left := v)]
    case RightOf(p) => m[p := m[p].(right := v)]
  }

  lemma {:induction false} LinkToIn(m: Links, q: seq<Timer>, i: nat)
    requires Spells(m, q) && i >= 1 && (i == 1 || i / 2 <= |q|)
    ensures var l := LinkTo(q, i); !l.MinLink? ==> l.node in m
  {
    SpellsFacts(m, q);
  }

  lemma {:induction false} StoreIsAppend(m: Links, q: seq<Timer>, x: Timer, k: Key)
    requires Spells(m, q) && x !in m
    ensures var l := LinkTo(q, |q| + 1); !l.MinLink? ==> l.node in m
    ensures StoreAt(m[x := Entry(null, null, At(q, (|q| + 1) / 2), k)], LinkTo(q, |q| + 1), x) == AppendWrites(m, q, x, k)
  {
    SpellsFacts(m, q);
  }

  /** Storing x in the next free link spells the longer heap. */
  lemma {:induction false} StoreSpells(m: Links, q: seq<Timer>, x: Timer, k: Key)
    requires Spells(m, q) && x !in m
    ensures var l := LinkTo(q, |q| + 1); !l.MinLink? ==> l.node in m
    ensures var m' := StoreAt(m[x := Entry(null, null, At(q, (|q| + 1) / 2), k)], LinkTo(q, |q| + 1), x);
            Spells(m', q + [x]) && m'.Keys == m.Keys + {x} && KeysOf(m', q + [x]) == KeysOf(m, q) + [k]
  {
    hide StoreAt, Spells, KeysOf, AppendWrites;
    StoreIsAppend(m, q, x, k);
    AppendSpells(m, q, x, k);
  }

  lemma {:induction false} StoreIsDrop(m: Links, q: seq<Timer>)
    requires Spells(m, q) && |q| > 0
    ensures var l := LinkTo(q, |q|); !l.MinLink? ==> l.node in m
    ensures StoreAt(m, LinkTo(q, |q|), null) - {q[|q| - 1]} == DropWrites(m, q)
    ensures q[|q| - 1] in m
  {
    SpellsFacts(m, q);
  }

  /** struct heap with timer_less_than as its comparison. */
  class Heap {
    var min: Timer?
    var nelts: nat
    /** The nodes by number. */
    ghost var q: seq<Timer>
    /** A copy of the memory of the linked nodes. */
    ghost var links: Links

    /** heap_init. */
    constructor ()
      ensures Valid() && q == []
    {
      min, nelts, q, links := null, 0, [], map[];
    }

    /** links is what the nodes hold. */
    ghost predicate Sync()
      reads this`links, links.Keys`left, links.Keys`right, links.Keys`parent, links.Keys`timeout, links.Keys`startId
    {
      forall n :: n in links ==> links[n] == Entry(n.left, n.right, n.parent, KeyOf(n))
    }

    ghost predicate Valid()
      reads this, links.Keys`left, links.Keys`right, links.Keys`parent, links.Keys`timeout, links.Keys`startId
    {
      Sync() && Spells(links, q) && min == At(q, 1) && nelts == |q| && HeapOrder(KeysOf(links, q))
    }

    /** Linked throughout, but order not yet restored. */
    ghost predicate Linked()
      reads this, links.Keys`left, links.Keys`right, links.Keys`parent, links.Keys`timeout, links.Keys`startId
    {
      Sync() && Spells(links, q) && min == At(q, 1) && nelts == |q|
    }

    /** *link. */
    method Load(link: Link) returns (n: Timer?)
      requires Sync() && (!link.MinLink? ==> link.node in links)
      ensures n == match link case MinLink => min case LeftOf(x) => links[x].left case RightOf(x) => links[x].right
    {
      match link
      case MinLink => n := min;
      case LeftOf(x) => n := x.left;
      case RightOf(x) => n := x.right;
    }

    /** The second loop of insert and remove: the link that holds node number
        `number`, and the link that holds its parent. */
    method Walk(number: nat) returns (parent: Link, child: Link)
      requires Linked() && 1 <= number <= |q| + 1
      ensures child == LinkTo(q, number)
      ensures number >= 2 ==> parent == LinkTo(q, number / 2)
      ensures number == 1 ==> parent == MinLink
    {
      hide Spells, NodeSet, Follow, Sync, KeysOf, Fits;
      var path, k := PathTo(number);
      parent, child := MinLink, MinLink;
      ghost var i: nat := 1;
      while k > 0
        invariant Follow(i, path, k) == number && 1 <= i <= number
        invariant child == LinkTo(q, i)
        invariant if i >= 2 then parent == LinkTo(q, i / 2) else parent == MinLink
        decreases k
      {
        FollowStep(i, path, k);
        LinkHolds(i);
        parent := child;
        var at := Load(child);
        child := if path % 2 == 1 then RightOf(at) else LeftOf(at);
        i := 2 * i + path % 2;
        path, k := path / 2, k - 1;
      }
      FollowNone(i, path);
    }

    lemma LinkHolds(i: nat)
      requires Linked() && 1 <= i <= |q|
      ensures var l := LinkTo(q, i); !l.MinLink? ==> l.node in links
      ensures (match LinkTo(q, i) case MinLink => min case LeftOf(x) => links[x].left case RightOf(x) => links[x].right) == q[i - 1]
    {
      if i >= 2 { SpellsAt(links, q, i / 2); }
    }

    lemma Held(n: Timer)
      requires Sync() && n in links
      ensures n.left == links[n].left && n.right == links[n].right && n.parent == links[n].parent
    {
    }

    // ---------- single writes, each mirrored in links ----------

    method SetLinks(n: Timer, left: Timer?, right: Timer?, parent: Timer?)
      requires Sync() && n in links
      modifies this`links, {n}`left, {n}`right, {n}`parent
      ensures Sync() && links == old(links)[n := Entry(left, right, parent, old(links)[n].key)]
    {
      n.left, n.right, n.parent := left, right, parent;
      links := links[n := Entry(left, right, parent, links[n].key)];
    }

    method SetLeft(n: Timer, v: Timer?)
      requires Sync() && n in links
      modifies this`links, {n}`left
      ensures Sync() && links == old(links)[n := old(links)[n].(left := v)]
    {
      n.left := v;
      links := links[n := links[n].(left := v)];
    }

    method SetRight(n: Timer, v: Timer?)
      requires Sync() && n in links
      modifies this`links, {n}`right
      ensures Sync() && links == old(links)[n := old(links)[n].(right := v)]
    {
      n.right := v;
      links := links[n := links[n].(right := v)];
    }

    method SetParentOf(n: Timer?, v: Timer?)
      requires Sync() && (n != null ==> n in links)
      modifies this`links, One(n)`parent
      ensures Sync() && links == SetParent(old(links), n, v) && links.Keys == old(links.Keys)
    {
      if n != null {
        n.parent := v;
        links := links[n := links[n].(parent := v)];
      }
    }

    /** p's link to x, or heap->min when p is NULL, now refers to y. */
    method Relink(p: Timer?, x: Timer, y: Timer)
      requires Sync() && (p != null ==> p in links)
      modifies this`links, this`min, One(p)`left, One(p)`right
      ensures Sync() && links == SetChild(old(links), p, x, y) && links.Keys == old(links.Keys)
      ensures min == if p == null then y else old(min)
    {
      if p == null {
        min := y;
      } else if p.left == x {
        SetLeft(p, y);
      } else {
        SetRight(p, y);
      }
    }

    /** Fills in a node that is about to be linked. */
    method Enter(n: Timer, left: Timer?, right: Timer?, parent: Timer?)
      requires Sync()
      modifies this`links, {n}`left, {n}`right, {n}`parent
      ensures Sync() && links == old(links)[n := Entry(left, right, parent, KeyOf(n))]
    {
      n.left, n.right, n.parent := left, right, parent;
      links := links[n := Entry(left, right, parent, KeyOf(n))];
    }

    /** n has left the heap. */
    ghost method Forget(n: Timer)
      requires Sync()
      modifies this`links
      ensures Sync() && links == old(links) - {n}
    {
      links := links - {n};
    }

    /** *link = v for the link to the next or the last node. */
    method Store(link: Link, v: Timer?)
      requires Sync() && (!link.MinLink? ==> link.node in links)
      modifies this`links, this`min, (if link.MinLink? then {} else {link.node})`left, (if link.MinLink? then {} else {link.node})`right
      ensures Sync()
      ensures links == StoreAt(old(links), link, v)
      ensures min == if link.MinLink? then v else old(min)
    {
      match link
      case MinLink => min := v;
      case LeftOf(p) => SetLeft(p, v);
      case RightOf(p) => SetRight(p, v);
    }

    // ---------- heap_node_swap ----------

    /** The struct copies and the first links of heap_node_swap. */
    method SwapStructs(parent: Timer, child: Timer) returns (sibling: Timer?)
      requires Sync() && parent in links && child in links && parent != child
      modifies this`links, {parent, child}`left, {parent, child}`right, {parent, child}`parent
      ensures Sync() && (links, sibling) == SwapCore(old(links), parent, child)
    {
      var tl, tr, tp := parent.left, parent.right, parent.parent;
      SetLinks(parent, child.left, child.right, child.parent);
      SetLinks(child, tl, tr, tp);
      SetParentOf(parent, child);
      if child.left == child {
        SetLeft(child, parent);
        sibling := child.right;
      } else {
        SetRight(child, parent);
        sibling := child.left;
      }
    }

    /** The parent links heap_node_swap then corrects. */
    method Adopt(sibling: Timer?, child: Timer, parent: Timer, ghost a: Around)
      requires Sync() && parent in links && (a.l != null ==> a.l in links) && (a.r != null ==> a.r in links)
      requires sibling == a.s && (a.s != null ==> a.s in links)
      requires var m1 := SetParent(links, a.s, child); m1.Keys == links.Keys && m1[parent].left == a.l
      requires var m2 := SetParent(SetParent(links, a.s, child), a.l, parent); m2.Keys == links.Keys && m2[parent].right == a.r
      modifies this`links, links.Keys`parent
      ensures Sync() && links == SetParent(SetParent(SetParent(old(links), a.s, child), a.l, parent), a.r, parent)
    {
      hide SetParent, Sync;
      SetParentOf(sibling, child);
      Held(parent);
      SetParentOf(parent.left, parent);
      Held(parent);
      SetParentOf(parent.right, parent);
    }

    /** heap_node_swap. */
    method SwapLinks(parent: Timer, child: Timer, ghost a: Around)
      requires Sync() && AroundOk(links, a) && parent == a.p && child == a.c
      modifies this`min, this`links, links.Keys`left, links.Keys`right, links.Keys`parent
      ensures Sync() && parent in old(links) && child in old(links) && links == SwapWrites(old(links), parent, child)
      ensures min == if a.g == null then child else old(min)
    {
      hide SetParent, SetChild, SwapCore, AroundOk, SwapWrites, Sync;
      SwapReads(links, a);
      SwapWritesAre(links, a);
      AroundFacts(links, a);
      var sibling := SwapStructs(parent, child);
      Adopt(sibling, child, parent, a);
      Held(child);
      Relink(child.parent, parent, child);
    }

    /** Exchanges node number c with its parent. */
    method SwapNodes(parent: Timer, child: Timer, ghost c: nat)
      requires Linked() && 2 <= c <= |q| && parent == q[c / 2 - 1] && child == q[c - 1]
      modifies this`min, this`q, this`links, links.Keys`left, links.Keys`right, links.Keys`parent
      ensures Linked() && links.Keys == old(links.Keys)
      ensures |q| == |old(q)| && q == Swapped(old(q), c) && q[c / 2 - 1] == child && q[c - 1] == parent
      ensures KeysOf(links, q) == Swapped(old(KeysOf(links, q)), c)
    {
      hide Spells, KeysOf, NodeSet, SwapWrites, Fits, AroundOk, Sync;
      AroundOfOk(links, q, c);
      SwapSpells(links, q, c);
      SwappedAt(q, c, 1);
      SwapLinks(parent, child, AroundOf(q, c));
      q := Swapped(q, c);
    }

    /** What node number c holds, read through its fields. */
    lemma Neighbours(c: int)
      requires Linked() && 1 <= c <= |q|
      ensures var n := q[c - 1];
              && n in links && n.left == At(q, 2 * c) && n.right == At(q, 2 * c + 1) && n.parent == At(q, c / 2)
              && KeysOf(links, q)[c - 1] == KeyOf(n)
    {
      SpellsAt(links, q, c);
    }

    ghost predicate OrderedAround(c: int)
      requires Linked()
      reads this, links.Keys`left, links.Keys`right, links.Keys`parent, links.Keys`timeout, links.Keys`startId
    {
      1 <= c <= |q| && OrderAround(KeysOf(links, q), c)
    }

    /** The last loop of insert and remove: node rises while it is less than its parent. */
    method SiftUp(node: Timer, ghost at: nat)
      requires Linked() && OrderedAround(at) && BelowSettled(KeysOf(links, q), at) && node == q[at - 1]
      modifies this`min, this`q, this`links, links.Keys`left, links.Keys`right, links.Keys`parent
      ensures Valid() && links.Keys == old(links.Keys)
    {
      hide Spells, Fits, KeysOf, NodeSet, Swapped, OrderAround, BelowSettled, HeapOrder, Sync, Settled;
      ghost var c: nat := at;
      Neighbours(c);
      if c >= 2 { Neighbours(c / 2); }
      while node.parent != null && Less(KeyOf(node), KeyOf(node.parent))
        invariant Linked() && OrderedAround(c) && BelowSettled(KeysOf(links, q), c) && node == q[c - 1]
        invariant links.Keys == old(links.Keys)
        invariant node.parent == At(q, c / 2) && KeysOf(links, q)[c - 1] == KeyOf(node)
        invariant c >= 2 ==> KeysOf(links, q)[c / 2 - 1] == KeyOf(q[c / 2 - 1])
        decreases c
      {
        RiseOne(KeysOf(links, q), c);
        SwapNodes(node.parent, node, c);
        c := c / 2;
        Neighbours(c);
        if c >= 2 { Neighbours(c / 2); }
      }
      RiseEnds(KeysOf(links, q), c);
    }

    /** Which of node number c and its children is least. */
    method Smallest(child: Timer, ghost c: nat) returns (smallest: Timer, ghost s: nat)
      requires Linked() && 1 <= c <= |q| && child == q[c - 1]
      ensures s in {c, 2 * c, 2 * c + 1} && s <= |q| && smallest == q[s - 1]
      ensures var ks := KeysOf(links, q); LeastOf(ks, c, s) && (s != c ==> Less(ks[s - 1], ks[c - 1]))
      ensures s == c <==> smallest == child
    {
      hide Spells, Fits, KeysOf, NodeSet, Sync;
      Neighbours(c);
      if 2 * c <= |q| { Neighbours(2 * c); }
      if 2 * c + 1 <= |q| { Neighbours(2 * c + 1); }
      smallest, s := child, c;
      if child.left != null && Less(KeyOf(child.left), KeyOf(smallest)) {
        smallest, s := child.left, 2 * c;
      }
      if child.right != null && Less(KeyOf(child.right), KeyOf(smallest)) {
        smallest, s := child.right, 2 * c + 1;
      }
      if smallest == child {
        SpellsFacts(links, q);
        AtDistinct(q, s, c);
      }
      assert forall i :: i / 2 == c ==> i == 2 * c || i == 2 * c + 1;
    }

    /** The first loop of remove: child sinks below every child that is less. */
    method SiftDown(child: Timer, ghost at: nat) returns (ghost c: nat)
      requires Linked() && OrderedAround(at) && child == q[at - 1]
      modifies this`min, this`q, this`links, links.Keys`left, links.Keys`right, links.Keys`parent
      ensures Linked() && OrderedAround(c) && BelowSettled(KeysOf(links, q), c) && child == q[c - 1]
      ensures links.Keys == old(links.Keys)
    {
      hide Spells, Fits, KeysOf, NodeSet, Swapped, OrderAround, BelowSettled, HeapOrder, Sync, Settled, LeastOf, Less;
      c := at;
      while true
        invariant Linked() && OrderedAround(c) && child == q[c - 1]
        invariant links.Keys == old(links.Keys)
        decreases |q| - c
      {
        var smallest, s := Smallest(child, c);
        if smallest == child {
          SinkEnds(KeysOf(links, q), c);
          return;
        }
        SinkOne(KeysOf(links, q), c, s);
        SwapNodes(child, smallest, s);
        c := s;
      }
    }

    /** Where the next node goes, and the node above it. */
    method NextFree() returns (above: Timer?, child: Link)
      requires Linked()
      ensures above == At(q, (|q| + 1) / 2) && child == LinkTo(q, |q| + 1) && (!child.MinLink? ==> child.node in links)
    {
      hide Spells, Fits, KeysOf, NodeSet, Sync;
      var parent;
      parent, child := Walk(nelts + 1);
      if nelts + 1 >= 2 { LinkHolds((nelts + 1) / 2); }
      LinkToIn(links, q, nelts + 1);
      above := Load(parent);
    }

    /** The first and last writes of insert before the walk up. */
    method Attach(newnode: Timer, above: Timer?, link: Link)
      requires Sync() && newnode !in links && (!link.MinLink? ==> link.node in links)
      modifies this`links, this`min, links.Keys`left, links.Keys`right, {newnode}`left, {newnode}`right, {newnode}`parent
      ensures Sync() && (!link.MinLink? ==> link.node in old(links))
      ensures links == StoreAt(old(links)[newnode := Entry(null, null, above, KeyOf(newnode))], link, newnode)
      ensures min == if link.MinLink? then newnode else old(min)
    {
      hide Sync, StoreAt;
      Enter(newnode, null, null, above);
      Store(link, newnode);
    }

    /** Links newnode as the new last node, order aside. */
    method LinkLast(newnode: Timer)
      requires Linked() && newnode !in links
      modifies this, links.Keys`left, links.Keys`right, {newnode}`left, {newnode}`right, {newnode}`parent
      ensures Linked() && q == old(q) + [newnode] && links.Keys == old(links.Keys) + {newnode}
      ensures KeysOf(links, q) == old(KeysOf(links, q)) + [KeyOf(newnode)]
    {
      hide Spells, Fits, KeysOf, NodeSet, Sync, StoreAt;
      var above, child := NextFree();
      StoreSpells(links, q, newnode, KeyOf(newnode));
      Attach(newnode, above, child);
      nelts := nelts + 1;
      q := q + [newnode];
    }

    /** heap_insert. */
    method Insert(newnode: Timer)
      requires Valid() && newnode !in links
      modifies this, links.Keys`left, links.Keys`right, links.Keys`parent, {newnode}`left, {newnode}`right, {newnode}`parent
      ensures Valid() && links.Keys == old(links.Keys) + {newnode} && nelts == old(nelts) + 1
    {
      hide Spells, Fits, KeysOf, NodeSet, Sync, OrderAround, BelowSettled, HeapOrder;
      LinkLast(newnode);
      AppendOrder(old(KeysOf(links, q)), KeyOf(newnode));
      SiftUp(newnode, |q|);
    }

    /** Unlinks the last node. */
    method UnlinkLast() returns (child: Timer)
      requires Linked() && |q| > 0
      modifies this, links.Keys`left, links.Keys`right
      ensures Linked() && child == old(q[|q| - 1]) && q == old(q[..|q| - 1]) && links.Keys == old(links.Keys) - {child}
      ensures child !in links && child in old(links)
      ensures KeysOf(links, q) == old(KeysOf(links, q)[..|q| - 1])
    {
      hide Spells, Fits, KeysOf, NodeSet, Sync, DropWrites, StoreAt;
      var parent, max := Walk(nelts);
      LinkHolds(nelts);
      DropSpells(links, q);
      StoreIsDrop(links, q);
      nelts := nelts - 1;
      child := Load(max);
      Store(max, null);
      Forget(child);
      q := q[..|q| - 1];
    }

    /** child's own children now name it as their parent. */
    method ClaimChildren(child: Timer)
      requires Sync() && child in links
      requires links[child].left != null ==> links[child].left in links
      requires links[child].right != null ==> links[child].right in links
      modifies this`links, One(links[child].left)`parent, One(links[child].right)`parent
      ensures Sync() && links.Keys == old(links.Keys)
      ensures links == SetParent(SetParent(old(links), old(links)[child].left, child), old(links)[child].right, child)
    {
      hide SetParent, Sync;
      SetParentChild(links, links[child].left, child);
      Held(child);
      SetParentOf(child.left, child);
      Held(child);
      SetParentOf(child.right, child);
    }

    /** The writes that put child where node is. */
    method ReplaceLinks(node: Timer, child: Timer)
      requires Sync() && node in links && child !in links
      requires var e := links[node];
               && (e.left != null ==> e.left in links && e.left != node) && (e.right != null ==> e.right in links && e.right != node)
               && (e.parent != null ==> e.parent in links && e.parent != node)
      modifies this`min, this`links, links.Keys`left, links.Keys`right, links.Keys`parent
      modifies {child}`left, {child}`right, {child}`parent
      ensures Sync() && node in old(links) && links == ReplaceWrites(old(links), node, child, KeyOf(child))
      ensures min == if old(links)[node].parent == null then child else old(min)
    {
      hide SetParent, SetChild, Sync;
      SetParentChild(links[child := links[node].(key := KeyOf(child))], links[node].left, child);
      Held(node);
      Enter(child, node.left, node.right, node.parent);
      ClaimChildren(child);
      Relink(node.parent, node, child);
      Forget(node);
    }

    /** Puts child, which is unlinked, where node number j is. */
    method Replace(node: Timer, child: Timer, ghost j: nat)
      requires Linked() && 1 <= j <= |q| && node == q[j - 1] && child !in links
      modifies this`min, this`q, this`links, links.Keys`left, links.Keys`right, links.Keys`parent
      modifies {child}`left, {child}`right, {child}`parent
      ensures Linked() && q == old(q)[j - 1 := child] && links.Keys == old(links.Keys) - {node} + {child}
      ensures KeysOf(links, q) == old(KeysOf(links, q))[j - 1 := KeyOf(child)]
    {
      hide Spells, Fits, KeysOf, NodeSet, ReplaceWrites, Sync;
      ReplaceSpells(links, q, j, child, KeyOf(child));
      SpellsFacts(links, q);
      NeighboursDiffer(q, j);
      SpellsEntry(links, q, j);
      ReplaceLinks(node, child);
      q := q[j - 1 := child];
    }

    /** heap_remove; node may be NULL when the heap is empty. */
    method Remove(node: Timer?)
      requires Valid() && (if node == null then min == null else node in links)
      modifies this, links.Keys`left, links.Keys`right, links.Keys`parent
      ensures Valid() && links.Keys == old(links.Keys) - One(node)
      ensures node != null ==> nelts == old(nelts) - 1
      ensures node == null ==> unchanged(this)
    {
      hide Spells, Fits, KeysOf, NodeSet, Sync, OrderAround, BelowSettled, HeapOrder;
      if node != null { NodesHeld(node); }
      if nelts == 0 { return; }
      ghost var j := NumberOf(node);
      ghost var ks := KeysOf(links, q);
      var child := UnlinkLast();
      DropOrder(ks);
      if child == node {
        SpellsFacts(links, q);
        if child == min { assert false; }  // clearing *max has cleared heap->min too
        return;
      }
      Replace(node, child, j);
      ReplaceOrder(ks[..|ks| - 1], j, KeyOf(child));
      ghost var c := SiftDown(child, j);
      SiftUp(child, c);
    }

    /** heap_min: no node of the heap is less than the root. */
    lemma MinIsLeast(n: Timer)
      requires Valid() && n in links
      ensures min != null && min in links && !Less(KeyOf(n), KeyOf(min))
    {
      var j := NumberOf(n);
      SpellsFacts(links, q);
      RootLeast(KeysOf(links, q), j);
      Neighbours(1);
      Neighbours(j);
    }

    lemma NodesHeld(node: Timer)
      requires Valid() && node in links
      ensures nelts > 0
    {
      var _ := NumberOf(node);
    }

    lemma NumberOf(node: Timer) returns (j: nat)
      requires Linked() && node in links
      ensures 1 <= j <= |q| && q[j - 1] == node
    {
      assert node in NodeSet(q);
      var i :| 0 <= i < |q| && q[i] == node;
      j := i + 1;
    }

    /** heap_dequeue: the root leaves the heap. */
    method Dequeue()
      requires Valid()
      modifies this, links.Keys`left, links.Keys`right, links.Keys`parent
      ensures Valid() && links.Keys == old(links.Keys) - One(old(min))
    {
      MinInLinks();
      Remove(min);
    }

    lemma MinInLinks()
      requires Valid()
      ensures min == null <==> links == map[]
      ensures min != null ==> min in links
    {
      SpellsFacts(links, q);
      if min == null { assert links.Keys == {}; }
    }
  }

  /** Node number s is not above any child of node number c. */
  predicate LeastOf(ks: seq<Key>, c: nat, s: nat)
    requires 1 <= c <= |ks| && 1 <= s <= |ks|
  {
    forall i :: 2 <= i <= |ks| && i / 2 == c ==> NotLess(ks, i, s)
  }

  predicate NotLess(ks: seq<Key>, i: nat, s: nat)
    requires 1 <= i <= |ks| && 1 <= s <= |ks|
  {
    !Less(ks[i - 1], ks[s - 1])
  }

  lemma {:induction false} SinkOne(ks: seq<Key>, c: nat, s: nat)
    requires OrderAround(ks, c) && c <= |ks| && s <= |ks| && s in {2 * c, 2 * c + 1} && LeastOf(ks, c, s) && Less(ks[s - 1], ks[c - 1])
    ensures OrderAround(Swapped(ks, s), s)
  {
    forall i | 2 <= i <= |ks| && i / 2 == s / 2 ensures !Less(ks[i - 1], ks[s - 1]) { assert NotLess(ks, i, s); }
    StepDown(ks, s);
  }

  lemma {:induction false} SinkEnds(ks: seq<Key>, c: nat)
    requires 1 <= c <= |ks| && LeastOf(ks, c, c)
    ensures BelowSettled(ks, c)
  {
    forall i | 2 <= i <= |ks| && i / 2 == c ensures Settled(ks, i) { assert NotLess(ks, i, c); }
  }

  lemma {:induction false} AppendOrder(ks: seq<Key>, k: Key)
    requires HeapOrder(ks)
    ensures OrderAround(ks + [k], |ks| + 1) && BelowSettled(ks + [k], |ks| + 1)
  {
    forall i | 2 <= i <= |ks| ensures Settled(ks + [k], i) { assert Settled(ks, i); }
  }

  lemma {:induction false} DropOrder(ks: seq<Key>)
    requires HeapOrder(ks) && |ks| > 0
    ensures HeapOrder(ks[..|ks| - 1])
  {
    var ks' := ks[..|ks| - 1];
    forall i | 2 <= i <= |ks'| ensures Settled(ks', i) { assert Settled(ks, i); }
  }

  lemma {:induction false} ReplaceOrder(ks: seq<Key>, j: nat, k: Key)
    requires HeapOrder(ks) && 1 <= j <= |ks|
    ensures OrderAround(ks[j - 1 := k], j)
  {
    var ks' := ks[j - 1 := k];
    forall i | 2 <= i <= |ks| && i != j && i / 2 != j ensures Settled(ks', i) { assert Settled(ks, i); }
    forall i | 2 <= i <= |ks| && i / 2 == j && j >= 2 ensures !Less(ks'[i - 1], ks'[j / 2 - 1]) {
      assert Settled(ks, i) && Settled(ks, j);
    }
  }

  lemma {:induction false} RiseOne(ks: seq<Key>, c: int)
    requires OrderAround(ks, c) && BelowSettled(ks, c) && c >= 2 && Less(ks[c - 1], ks[c / 2 - 1])
    ensures OrderAround(Swapped(ks, c), c / 2) && BelowSettled(Swapped(ks, c), c / 2)
  {
    StepUp(ks, c);
  }

  lemma {:induction false} RiseEnds(ks: seq<Key>, c: int)
    requires OrderAround(ks, c) && BelowSettled(ks, c) && (c >= 2 ==> !Less(ks[c - 1], ks[c / 2 - 1]))
    ensures HeapOrder(ks)
  {
  }

  /** The fields timer_less_than compares. */
  function KeyOf(n: Timer): Key
    reads n`timeout, n`startId
  {
    Key(n.timeout, n.startId)
  }
}
