/**
 The intrusive red-black tree of uv/tree.h: nodes with left, right, parent and
 colour fields rewritten in place.  Each macro is a method; ghost shapes say
 which tree the pointers spell out before and after.
 */
module RedBlackTree {
  import opened RbShape
  import opened RbFields
  import opened RbRemoval

  class Tree {
    var root: Node?
    ghost var heap: map<Node, Entry>   // a mirror of the fields of every node of the tree
    ghost var shape: Shape

    /** The mirror is exact. */
    ghost predicate Sync()
      reads this, heap.Keys
    {
      forall n :: n in heap ==> Entry(n.left, n.right, n.parent, n.red) == heap[n]
    }

    /** The heap spells out exactly the shape t. */
    ghost predicate Holds(t: Shape)
      reads this, heap.Keys
    {
      Sync() && Apart(t) && heap == Fields(t, null) && root == Root(t)
    }

    // ---------- RB_LEFT, RB_RIGHT, RB_PARENT and RB_COLOR as targets of assignments ----------

    method SetLeft(n: Node, v: Node?)
      requires Sync() && n in heap
      modifies this`heap, n`left
      ensures Sync() && heap == old(heap)[n := old(heap)[n].(left := v)]
    {
      n.left := v;
      heap := heap[n := heap[n].(left := v)];
    }

    method SetRight(n: Node, v: Node?)
      requires Sync() && n in heap
      modifies this`heap, n`right
      ensures Sync() && heap == old(heap)[n := old(heap)[n].(right := v)]
    {
      n.right := v;
      heap := heap[n := heap[n].(right := v)];
    }

    method SetParent(n: Node, v: Node?)
      requires Sync() && n in heap
      modifies this`heap, n`parent
      ensures Sync() && heap == old(heap)[n := old(heap)[n].(parent := v)]
    {
      n.parent := v;
      heap := heap[n := heap[n].(parent := v)];
    }

    method SetRed(n: Node, v: bool)
      requires Sync() && n in heap
      modifies this`heap, n`red
      ensures Sync() && heap == old(heap)[n := old(heap)[n].(red := v)]
    {
      n.red := v;
      heap := heap[n := heap[n].(red := v)];
    }

    /** `if (x) RB_PARENT(x) = p`. */
    method SetParentOf(x: Node?, p: Node?)
      requires Sync() && (x != null ==> x in heap)
      modifies this`heap, heap.Keys
      ensures Sync()
      ensures heap == PutParent(old(heap), x, p)
    {
      if x != null {
        SetParent(x, p);
      }
    }

    /** Let p, or the root pointer when p is NULL, refer to y instead of x. */
    method ReplaceChild(p: Node?, x: Node?, y: Node?)
      requires Sync() && (p != null ==> p in heap)
      modifies this`heap, this`root, heap.Keys
      ensures Sync()
      ensures root == if p == null then y else old(root)
      ensures heap == PutChild(old(heap), p, x, y)
    {
      if p != null {
        if p.left == x {
          SetLeft(p, y);
        } else {
          SetRight(p, y);
        }
      } else {
        root := y;
      }
    }

    // ---------- rotations ----------

    /** RB_ROTATE_LEFT: elm's right child y takes elm's place below p, and y's
        left subtree b becomes elm's right subtree. */
    method RotateLeft(elm: Node, ghost y: Node, ghost b: Node?, ghost p: Node?)
      requires Sync() && elm in heap && y in heap && elm != y
      requires heap[elm].right == y && heap[y].left == b && heap[elm].parent == p
      requires b != null ==> b in heap && b != elm && b != y
      requires p != null ==> p in heap && p != elm && p != y
      modifies this`heap, this`root, heap.Keys
      ensures Sync() && heap == LeftWrites(old(heap), elm, y, b, p)
      ensures root == if p == null then y else old(root)
    {
      var tmp := elm.right;
      SetRight(elm, tmp.left);
      SetParentOf(tmp.left, elm);
      SetParent(tmp, elm.parent);
      ReplaceChild(elm.parent, elm, tmp);
      SetLeft(tmp, elm);
      SetParent(elm, tmp);
    }

    /** RB_ROTATE_RIGHT: elm's left child x takes elm's place below p, and x's
        right subtree b becomes elm's left subtree. */
    method RotateRight(elm: Node, ghost x: Node, ghost b: Node?, ghost p: Node?)
      requires Sync() && elm in heap && x in heap && elm != x
      requires heap[elm].left == x && heap[x].right == b && heap[elm].parent == p
      requires b != null ==> b in heap && b != elm && b != x
      requires p != null ==> p in heap && p != elm && p != x
      modifies this`heap, this`root, heap.Keys
      ensures Sync() && heap == RightWrites(old(heap), elm, x, b, p)
      ensures root == if p == null then x else old(root)
    {
      var tmp := elm.left;
      SetLeft(elm, tmp.right);
      SetParentOf(tmp.right, elm);
      SetParent(tmp, elm.parent);
      ReplaceChild(elm.parent, elm, tmp);
      SetRight(tmp, elm);
      SetParent(elm, tmp);
    }

    // ---------- the same, told on shapes ----------

    method Paint(n: Node, v: bool, ghost c: Ctx, ghost l: Shape, ghost red: bool, ghost r: Shape)
      requires Holds(Plug(c, T(l, n, red, r)))
      modifies this`heap, heap.Keys
      ensures Holds(Plug(c, T(l, n, v, r)))
      ensures heap.Keys == old(heap).Keys
      ensures Inorder(Plug(c, T(l, n, v, r))) == Inorder(Plug(c, T(l, n, red, r)))
    {
      hide Plug, Nodes, Fields, Apart, Inorder;
      Repaint(c, l, n, red, r, v);
      SetRed(n, v);
    }

    method RotateLeftAt(elm: Node, ghost c: Ctx, ghost a: Shape, ghost xr: bool,
                        ghost b: Shape, ghost y: Node, ghost yr: bool, ghost d: Shape)
      requires Holds(Plug(c, XTop(a, elm, xr, b, y, yr, d)))
      modifies this`heap, this`root, heap.Keys
      ensures Holds(Plug(c, YTop(a, elm, xr, b, y, yr, d)))
      ensures heap.Keys == old(heap).Keys
      ensures Inorder(Plug(c, YTop(a, elm, xr, b, y, yr, d))) == Inorder(Plug(c, XTop(a, elm, xr, b, y, yr, d)))
    {
      LeftRotation(c, a, elm, xr, b, y, yr, d);
      RotateLeft(elm, y, Root(b), Parent(c));
    }

    method RotateRightAt(elm: Node, ghost c: Ctx, ghost a: Shape, ghost x: Node, ghost xr: bool,
                         ghost b: Shape, ghost yr: bool, ghost d: Shape)
      requires Holds(Plug(c, YTop(a, x, xr, b, elm, yr, d)))
      modifies this`heap, this`root, heap.Keys
      ensures Holds(Plug(c, XTop(a, x, xr, b, elm, yr, d)))
      ensures heap.Keys == old(heap).Keys
      ensures Inorder(Plug(c, XTop(a, x, xr, b, elm, yr, d))) == Inorder(Plug(c, YTop(a, x, xr, b, elm, yr, d)))
    {
      RightRotation(c, a, x, xr, b, elm, yr, d);
      RotateRight(elm, x, Root(b), Parent(c));
    }

    /** The red-uncle case below gparent's left child: recolour and move up. */
    method RecolourUncleLeft(tmp: Node, parent: Node, gparent: Node, ghost c: Ctx, ghost s: Shape)
      returns (ghost p: Shape, ghost u: Shape)
      requires Holds(Plug(c, s)) && ParentRed(c) && c.n == parent
      requires c.up.L? && c.up.n == gparent && !c.up.red && IsRed(c.up.r) && c.up.r.n == tmp
      modifies this`heap, heap.Keys
      ensures heap.Keys == old(heap).Keys
      ensures p == (if c.L? then T(s, parent, false, c.r) else T(c.l, parent, false, s))
      ensures u == T(c.up.r.l, tmp, false, c.up.r.r)
      ensures Holds(Plug(c.up.up, T(p, gparent, true, u)))
      ensures Inorder(Plug(c.up.up, T(p, gparent, true, u))) == Inorder(Plug(c, s))
    {
      ghost var unc, up2 := c.up.r, c.up.up;
      u := T(unc.l, tmp, false, unc.r);
      p := if c.L? then T(s, parent, false, c.r) else T(c.l, parent, false, s);
      ghost var p0 := T(p.l, parent, true, p.r);
      assert Plug(c, s) == Plug(c.up, p0) == Plug(up2, T(p0, gparent, false, unc))
          == Plug(R(up2, gparent, false, p0), unc);
      Paint(tmp, false, R(up2, gparent, false, p0), unc.l, true, unc.r);
      Paint(parent, false, L(up2, gparent, false, u), p.l, true, p.r);
      Paint(gparent, true, up2, p, false, u);
    }

    /** The black-uncle case below gparent's left child, elm an outer grandchild. */
    method FinishInsertLeft(parent: Node, gparent: Node, ghost up2: Ctx, ghost s: Shape, ghost sib: Shape, ghost unc: Shape)
      requires Holds(Plug(up2, T(T(s, parent, true, sib), gparent, false, unc)))
      modifies this`heap, this`root, heap.Keys
      ensures heap.Keys == old(heap).Keys
      ensures Holds(Plug(L(up2, parent, false, T(sib, gparent, true, unc)), s))
      ensures Inorder(Plug(L(up2, parent, false, T(sib, gparent, true, unc)), s))
           == Inorder(Plug(up2, T(T(s, parent, true, sib), gparent, false, unc)))
    {
      Paint(parent, false, L(up2, gparent, false, unc), s, true, sib);
      Paint(gparent, true, up2, T(s, parent, false, sib), false, unc);
      RotateRightAt(gparent, up2, s, parent, false, sib, true, unc);
    }

    /** One turn of RB_INSERT_COLOR's loop when parent is gparent's left child. */
    method InsertLeft(elm: Node, parent: Node, gparent: Node, ghost c: Ctx, ghost l: Shape, ghost r: Shape)
      returns (next: Node, ghost c': Ctx, ghost l': Shape, ghost r': Shape)
      requires Holds(Plug(c, T(l, elm, true, r))) && Fixing(c, l, elm, r)
      requires ParentRed(c) && c.n == parent && c.up.L? && c.up.n == gparent
      modifies this`heap, this`root, heap.Keys
      ensures heap.Keys == old(heap).Keys
      ensures Holds(Plug(c', T(l', next, true, r'))) && Fixing(c', l', next, r')
      ensures Depth(c') < Depth(c)
      ensures Inorder(Plug(c', T(l', next, true, r'))) == Inorder(Plug(c, T(l, elm, true, r)))
    {
      ghost var s := T(l, elm, true, r);
      ghost var up2, unc := c.up.up, c.up.r;
      ghost var p0 := if c.L? then T(s, parent, true, c.r) else T(c.l, parent, true, s);
      assert Plug(c, s) == Plug(c.up, p0) == Plug(up2, T(p0, gparent, false, unc))
          == Plug(R(up2, gparent, false, p0), unc);
      LookUp(c, s);
      LookUp(c.up, p0);
      var tmp := gparent.right;
      if unc.T? { Look(R(up2, gparent, false, p0), unc); }
      if tmp != null && tmp.red {
        RecolouredLeft(c, l, elm, r);
        l', r' := RecolourUncleLeft(tmp, parent, gparent, c, s);
        next, c' := gparent, up2;
      } else if parent.right == elm {
        InnerLeft(c, l, elm, r);
        RotateLeftAt(parent, c.up, c.l, true, l, elm, true, r);
        next, l', r' := parent, c.l, l;
        FinishInsertLeft(elm, gparent, up2, T(l', parent, true, r'), r, unc);
        c' := L(up2, elm, false, T(r, gparent, true, unc));
      } else {
        OuterLeft(c, l, elm, r);
        next, l', r' := elm, l, r;
        FinishInsertLeft(parent, gparent, up2, s, c.r, unc);
        c' := L(up2, parent, false, T(c.r, gparent, true, unc));
      }
    }

    /** The red-uncle case below gparent's right child: recolour and move up. */
    method RecolourUncleRight(tmp: Node, parent: Node, gparent: Node, ghost c: Ctx, ghost s: Shape)
      returns (ghost p: Shape, ghost u: Shape)
      requires Holds(Plug(c, s)) && ParentRed(c) && c.n == parent
      requires c.up.R? && c.up.n == gparent && !c.up.red && IsRed(c.up.l) && c.up.l.n == tmp
      modifies this`heap, heap.Keys
      ensures heap.Keys == old(heap).Keys
      ensures p == (if c.L? then T(s, parent, false, c.r) else T(c.l, parent, false, s))
      ensures u == T(c.up.l.l, tmp, false, c.up.l.r)
      ensures Holds(Plug(c.up.up, T(u, gparent, true, p)))
      ensures Inorder(Plug(c.up.up, T(u, gparent, true, p))) == Inorder(Plug(c, s))
    {
      ghost var unc, up2 := c.up.l, c.up.up;
      u := T(unc.l, tmp, false, unc.r);
      p := if c.L? then T(s, parent, false, c.r) else T(c.l, parent, false, s);
      ghost var p0 := T(p.l, parent, true, p.r);
      assert Plug(c, s) == Plug(c.up, p0) == Plug(up2, T(unc, gparent, false, p0))
          == Plug(L(up2, gparent, false, p0), unc);
      Paint(tmp, false, L(up2, gparent, false, p0), unc.l, true, unc.r);
      Paint(parent, false, R(up2, gparent, false, u), p.l, true, p.r);
      Paint(gparent, true, up2, u, false, p);
    }

    /** The black-uncle case below gparent's right child, elm an outer grandchild. */
    method FinishInsertRight(parent: Node, gparent: Node, ghost up2: Ctx, ghost s: Shape, ghost sib: Shape, ghost unc: Shape)
      requires Holds(Plug(up2, T(unc, gparent, false, T(sib, parent, true, s))))
      modifies this`heap, this`root, heap.Keys
      ensures heap.Keys == old(heap).Keys
      ensures Holds(Plug(R(up2, parent, false, T(unc, gparent, true, sib)), s))
      ensures Inorder(Plug(R(up2, parent, false, T(unc, gparent, true, sib)), s))
           == Inorder(Plug(up2, T(unc, gparent, false, T(sib, parent, true, s))))
    {
      Paint(parent, false, R(up2, gparent, false, unc), sib, true, s);
      Paint(gparent, true, up2, unc, false, T(sib, parent, false, s));
      RotateLeftAt(gparent, up2, unc, true, sib, parent, false, s);
    }

    /** One turn of RB_INSERT_COLOR's loop when parent is gparent's right child. */
    method InsertRight(elm: Node, parent: Node, gparent: Node, ghost c: Ctx, ghost l: Shape, ghost r: Shape)
      returns (next: Node, ghost c': Ctx, ghost l': Shape, ghost r': Shape)
      requires Holds(Plug(c, T(l, elm, true, r))) && Fixing(c, l, elm, r)
      requires ParentRed(c) && c.n == parent && c.up.R? && c.up.n == gparent
      modifies this`heap, this`root, heap.Keys
      ensures heap.Keys == old(heap).Keys
      ensures Holds(Plug(c', T(l', next, true, r'))) && Fixing(c', l', next, r')
      ensures Depth(c') < Depth(c)
      ensures Inorder(Plug(c', T(l', next, true, r'))) == Inorder(Plug(c, T(l, elm, true, r)))
    {
      ghost var s := T(l, elm, true, r);
      ghost var up2, unc := c.up.up, c.up.l;
      ghost var p0 := if c.L? then T(s, parent, true, c.r) else T(c.l, parent, true, s);
      assert Plug(c, s) == Plug(c.up, p0) == Plug(up2, T(unc, gparent, false, p0))
          == Plug(L(up2, gparent, false, p0), unc);
      LookUp(c, s);
      LookUp(c.up, p0);
      var tmp := gparent.left;
      if unc.T? { Look(L(up2, gparent, false, p0), unc); }
      if tmp != null && tmp.red {
        RecolouredRight(c, l, elm, r);
        l', r' := RecolourUncleRight(tmp, parent, gparent, c, s);
        l', r' := r', l';
        next, c' := gparent, up2;
      } else if parent.left == elm {
        InnerRight(c, l, elm, r);
        RotateRightAt(parent, c.up, l, elm, true, r, true, c.r);
        next, l', r' := parent, r, c.r;
        FinishInsertRight(elm, gparent, up2, T(l', parent, true, r'), l, unc);
        c' := R(up2, elm, false, T(unc, gparent, true, l));
      } else {
        OuterRight(c, l, elm, r);
        next, l', r' := elm, l, r;
        FinishInsertRight(parent, gparent, up2, s, c.l, unc);
        c' := R(up2, parent, false, T(unc, gparent, true, c.l));
      }
    }

    /** RB_INSERT_COLOR. */
    method InsertColor(elm: Node, ghost c: Ctx, ghost l: Shape, ghost r: Shape) returns (ghost u: Shape)
      requires Holds(Plug(c, T(l, elm, true, r))) && Fixing(c, l, elm, r)
      modifies this`heap, this`root, heap.Keys
      ensures heap.Keys == old(heap).Keys
      ensures Holds(u) && RedBlack(u) && Inorder(u) == Inorder(Plug(c, T(l, elm, true, r)))
    {
      var e := elm;
      ghost var ec, el, er := c, l, r;
      Look(ec, T(el, e, true, er));
      if !ec.Top? { LookUp(ec, T(el, e, true, er)); }
      while e.parent != null && e.parent.red
        invariant Holds(Plug(ec, T(el, e, true, er))) && Fixing(ec, el, e, er)
        invariant heap.Keys == old(heap).Keys
        invariant Inorder(Plug(ec, T(el, e, true, er))) == Inorder(Plug(c, T(l, elm, true, r)))
        invariant e.parent == Parent(ec) && (!ec.Top? ==> ec.n in heap && ec.n.red == ec.red && ec.n.parent == Parent(ec.up))
        decreases Depth(ec)
      {
        var parent := e.parent;
        var gparent := parent.parent;
        FixingGrandparent(ec, el, e, er);
        ghost var p0 := if ec.L? then T(T(el, e, true, er), parent, true, ec.r) else T(ec.l, parent, true, T(el, e, true, er));
        LookUp(ec.up, p0);
        if parent == gparent.left {
          e, ec, el, er := InsertLeft(e, parent, gparent, ec, el, er);
        } else {
          e, ec, el, er := InsertRight(e, parent, gparent, ec, el, er);
        }
        Look(ec, T(el, e, true, er));
        if !ec.Top? { LookUp(ec, T(el, e, true, er)); }
      }
      FixingDone(ec, el, e, er);
      ghost var t := Plug(ec, T(el, e, true, er));
      Paint(root, false, Top, t.l, t.red, t.r);
      u := T(t.l, t.n, false, t.r);
    }

    ghost predicate Valid()
      reads this, heap.Keys
    {
      Holds(shape) && RedBlack(shape) && Sorted(Inorder(shape))
    }

    constructor ()
      ensures Valid() && shape == Leaf
    {
      root, heap, shape := null, map[], Leaf;
      new;
      assert Balanced(Leaf, 0);
    }

    /** RB_SET: a red element without children below parent. */
    method Set(elm: Node, parent: Node?)
      requires Sync() && elm !in heap
      modifies this`heap, elm
      ensures Sync() && heap == old(heap)[elm := Entry(null, null, parent, true)]
    {
      elm.parent := parent;
      elm.left, elm.right := null, null;
      elm.red := true;
      heap := heap[elm := Entry(null, null, parent, true)];
    }

    /** The tail of RB_INSERT before the fix-up: hang elm in the empty hole of c. */
    method LinkNew(elm: Node, parent: Node?, comp: int, ghost c: Ctx)
      requires Holds(Plug(c, Leaf)) && elm !in Nodes(Plug(c, Leaf))
      requires parent == Parent(c) && (c.L? ==> comp < 0) && (c.R? ==> comp > 0)
      modifies this`heap, this`root, heap.Keys, elm
      ensures heap.Keys == old(heap).Keys + {elm}
      ensures Holds(Plug(c, T(Leaf, elm, true, Leaf)))
    {
      hide Plug, Nodes, Fields, Apart, CtxFields, CtxNodes, CtxApart;
      Attach(c, elm);
      Set(elm, parent);
      if parent != null {
        if comp < 0 {
          SetLeft(parent, elm);
        } else {
          SetRight(parent, elm);
        }
      } else {
        root := elm;
      }
    }

    /** RB_INSERT once the search has found elm's place. */
    method InsertAt(elm: Node, parent: Node?, comp: int, ghost c: Ctx)
      requires Valid() && shape == Plug(c, Leaf) && elm !in Nodes(shape) && Between(c, elm.key)
      requires parent == Parent(c) && (c.L? ==> comp < 0) && (c.R? ==> comp > 0)
      modifies this, heap.Keys, elm
      ensures Valid() && Inserted(Inorder(old(shape)), elm, Inorder(shape))
    {
      hide Fields, Apart, Plug, RedBlack, Sorted, Fixing, Inserted, Nodes, Between, Inorder;
      ghost var t := Plug(c, T(Leaf, elm, true, Leaf));
      assert Fixing(c, Leaf, elm, Leaf) && Sorted(Inorder(t)) && Inserted(Inorder(shape), elm, Inorder(t)) by {
        FixingStart(c, elm);
        InsertedInorder(c, elm);
      }
      LinkNew(elm, parent, comp, c);
      shape := InsertColor(elm, c, Leaf, Leaf);
    }

    /** RB_INSERT: an element with an equal key is returned and nothing changes;
        otherwise elm goes to its place in the order, and nothing else moves. */
    method Insert(elm: Node) returns (found: Node?)
      requires Valid() && elm !in Nodes(shape)
      modifies this, heap.Keys, elm
      ensures Valid()
      ensures found != null ==> found in Nodes(shape) && found.key == elm.key && shape == old(shape)
      ensures found == null ==> Inserted(Inorder(old(shape)), elm, Inorder(shape))
    {
      var parent: Node? := null;
      var comp := 0;
      var tmp := root;
      ghost var c, s := Top, shape;
      while tmp != null
        invariant Holds(Plug(c, s)) && Plug(c, s) == shape == old(shape)
        invariant tmp == Root(s) && parent == Parent(c)
        invariant Between(c, elm.key)
        invariant c.L? ==> comp < 0
        invariant c.R? ==> comp > 0
        decreases s
      {
        Look(c, s);
        SearchStep(c, s, elm.key);
        parent := tmp;
        comp := elm.key - parent.key;
        if comp < 0 {
          tmp := tmp.left;
          c, s := L(c, s.n, s.red, s.r), s.l;
        } else if comp > 0 {
          tmp := tmp.right;
          c, s := R(c, s.n, s.red, s.l), s.r;
        } else {
          PlugNodes(c, s);
          return tmp;
        }
      }
      InsertAt(elm, parent, comp, c);
      return null;
    }

    /** RB_REMOVE_COLOR, a red sibling tmp of parent's left child. */
    method RaiseRedSiblingLeft(parent: Node, tmp: Node, ghost c: Ctx, ghost s: Shape) returns (ghost c': Ctx)
      requires Holds(Plug(c, s)) && c.L? && c.n == parent && !c.red && IsRed(c.r) && c.r.n == tmp
      modifies this`heap, this`root, heap.Keys
      ensures heap.Keys == old(heap).Keys
      ensures c' == L(L(c.up, tmp, false, c.r.r), parent, true, c.r.l)
      ensures Holds(Plug(c', s)) && Inorder(Plug(c', s)) == Inorder(Plug(c, s))
    {
      ghost var w := c.r;
      PlugUp(c, s);
      Paint(tmp, false, R(c.up, parent, false, s), w.l, true, w.r);
      Paint(parent, true, c.up, s, false, T(w.l, tmp, false, w.r));
      RotateLeftAt(parent, c.up, s, true, w.l, tmp, false, w.r);
      c' := L(L(c.up, tmp, false, w.r), parent, true, w.l);
    }

    /** RB_REMOVE_COLOR, the left nephew x red and the right one black: rotate tmp. */
    method RaiseNephewLeft(tmp: Node, parent: Node, ghost c: Ctx, ghost s: Shape) returns (ghost v: Shape)
      requires Holds(Plug(c, s)) && c.L? && c.n == parent && c.r.T? && !c.r.red && c.r.n == tmp && IsRed(c.r.l)
      modifies this`heap, this`root, heap.Keys
      ensures heap.Keys == old(heap).Keys
      ensures v == T(c.r.l.l, c.r.l.n, false, T(c.r.l.r, tmp, true, c.r.r))
      ensures Holds(Plug(L(c.up, parent, c.red, v), s))
      ensures Inorder(Plug(L(c.up, parent, c.red, v), s)) == Inorder(Plug(c, s))
    {
      ghost var w := c.r;
      ghost var side := R(c.up, parent, c.red, s);
      PlugUp(c, s);
      Look(side, w);
      var x := tmp.left;
      PlugUp(L(side, tmp, false, w.r), w.l);
      if x != null {
        Paint(x, false, L(side, tmp, false, w.r), w.l.l, true, w.l.r);
      }
      Paint(tmp, true, side, T(w.l.l, x, false, w.l.r), false, w.r);
      RotateRightAt(tmp, R(c.up, parent, c.red, s), w.l.l, x, false, w.l.r, true, w.r);
      v := T(w.l.l, x, false, T(w.l.r, tmp, true, w.r));
      PlugUp(L(c.up, parent, c.red, v), s);
    }

    /** RB_REMOVE_COLOR, the right nephew red: the rotation that ends the loop. */
    method SettleLeft(tmp: Node, parent: Node, ghost c: Ctx, ghost s: Shape) returns (ghost u: Shape)
      requires Holds(Plug(c, s)) && c.L? && c.n == parent && c.r.T? && !c.r.red && c.r.n == tmp && IsRed(c.r.r)
      modifies this`heap, this`root, heap.Keys
      ensures heap.Keys == old(heap).Keys
      ensures u == Plug(c.up, T(T(s, parent, false, c.r.l), tmp, c.red, Blacken(c.r.r)))
      ensures Holds(u) && Inorder(u) == Inorder(Plug(c, s))
    {
      ghost var w := c.r;
      ghost var side := R(c.up, parent, c.red, s);
      ghost var f := Blacken(w.r);
      PlugUp(c, s);
      Look(side, w);
      Look(c.up, T(s, parent, c.red, w));
      Paint(tmp, parent.red, side, w.l, false, w.r);
      Paint(parent, false, c.up, s, c.red, T(w.l, tmp, c.red, w.r));
      ghost var above := R(R(c.up, parent, false, s), tmp, c.red, w.l);
      assert Plug(above, w.r) == Plug(c.up, T(s, parent, false, T(w.l, tmp, c.red, w.r)));
      assert Plug(above, f) == Plug(c.up, T(s, parent, false, T(w.l, tmp, c.red, f)));
      Look(above, w.r);
      LookUp(above, w.r);
      if tmp.right != null {
        Paint(tmp.right, false, above, w.r.l, true, w.r.r);
      }
      RotateLeftAt(parent, c.up, s, false, w.l, tmp, c.red, f);
      u := Plug(c.up, T(T(s, parent, false, w.l), tmp, c.red, f));
    }

    /** RB_REMOVE_COLOR, a red sibling tmp of parent's right child. */
    method RaiseRedSiblingRight(parent: Node, tmp: Node, ghost c: Ctx, ghost s: Shape) returns (ghost c': Ctx)
      requires Holds(Plug(c, s)) && c.R? && c.n == parent && !c.red && IsRed(c.l) && c.l.n == tmp
      modifies this`heap, this`root, heap.Keys
      ensures heap.Keys == old(heap).Keys
      ensures c' == R(R(c.up, tmp, false, c.l.l), parent, true, c.l.r)
      ensures Holds(Plug(c', s)) && Inorder(Plug(c', s)) == Inorder(Plug(c, s))
    {
      ghost var w := c.l;
      PlugUp(c, s);
      Paint(tmp, false, L(c.up, parent, false, s), w.l, true, w.r);
      Paint(parent, true, c.up, T(w.l, tmp, false, w.r), false, s);
      RotateRightAt(parent, c.up, w.l, tmp, false, w.r, true, s);
      c' := R(R(c.up, tmp, false, w.l), parent, true, w.r);
    }

    /** RB_REMOVE_COLOR, the right nephew x red and the left one black: rotate tmp. */
    method RaiseNephewRight(tmp: Node, parent: Node, ghost c: Ctx, ghost s: Shape) returns (ghost v: Shape)
      requires Holds(Plug(c, s)) && c.R? && c.n == parent && c.l.T? && !c.l.red && c.l.n == tmp && IsRed(c.l.r)
      modifies this`heap, this`root, heap.Keys
      ensures heap.Keys == old(heap).Keys
      ensures v == T(T(c.l.l, tmp, true, c.l.r.l), c.l.r.n, false, c.l.r.r)
      ensures Holds(Plug(R(c.up, parent, c.red, v), s))
      ensures Inorder(Plug(R(c.up, parent, c.red, v), s)) == Inorder(Plug(c, s))
    {
      ghost var w := c.l;
      ghost var side := L(c.up, parent, c.red, s);
      PlugUp(c, s);
      Look(side, w);
      var x := tmp.right;
      PlugUp(R(side, tmp, false, w.l), w.r);
      if x != null {
        Paint(x, false, R(side, tmp, false, w.l), w.r.l, true, w.r.r);
      }
      Paint(tmp, true, side, w.l, false, T(w.r.l, x, false, w.r.r));
      RotateLeftAt(tmp, L(c.up, parent, c.red, s), w.l, true, w.r.l, x, false, w.r.r);
      v := T(T(w.l, tmp, true, w.r.l), x, false, w.r.r);
      PlugUp(R(c.up, parent, c.red, v), s);
    }

    /** RB_REMOVE_COLOR, the left nephew red: the rotation that ends the loop. */
    method SettleRight(tmp: Node, parent: Node, ghost c: Ctx, ghost s: Shape) returns (ghost u: Shape)
      requires Holds(Plug(c, s)) && c.R? && c.n == parent && c.l.T? && !c.l.red && c.l.n == tmp && IsRed(c.l.l)
      modifies this`heap, this`root, heap.Keys
      ensures heap.Keys == old(heap).Keys
      ensures u == Plug(c.up, T(Blacken(c.l.l), tmp, c.red, T(c.l.r, parent, false, s)))
      ensures Holds(u) && Inorder(u) == Inorder(Plug(c, s))
    {
      ghost var w := c.l;
      ghost var side := L(c.up, parent, c.red, s);
      ghost var f := Blacken(w.l);
      PlugUp(c, s);
      Look(side, w);
      Look(c.up, T(w, parent, c.red, s));
      Paint(tmp, parent.red, side, w.l, false, w.r);
      Paint(parent, false, c.up, T(w.l, tmp, c.red, w.r), c.red, s);
      ghost var above := L(L(c.up, parent, false, s), tmp, c.red, w.r);
      assert Plug(above, w.l) == Plug(c.up, T(T(w.l, tmp, c.red, w.r), parent, false, s));
      assert Plug(above, f) == Plug(c.up, T(T(f, tmp, c.red, w.r), parent, false, s));
      Look(above, w.l);
      LookUp(above, w.l);
      if tmp.left != null {
        Paint(tmp.left, false, above, w.l.l, true, w.l.r);
      }
      RotateRightAt(parent, c.up, f, tmp, c.red, w.r, false, s);
      u := Plug(c.up, T(f, tmp, c.red, T(w.r, parent, false, s)));
    }

    /** `tmp = RB_RIGHT(parent)` after a rotation. */
    method NewSiblingLeft(parent: Node, ghost c: Ctx, ghost s: Shape) returns (tmp: Node)
      requires Holds(Plug(c, s)) && c.L? && c.n == parent && c.r.T?
      ensures tmp == c.r.n
    {
      PlugUp(c, s);
      Look(c.up, T(s, parent, c.red, c.r));
      tmp := parent.right;
    }

    /** RB_REMOVE_COLOR, only the inner nephew red: both rotations. */
    method SettleInnerLeft(tmp: Node, parent: Node, ghost c: Ctx, ghost s: Shape) returns (ghost u: Shape)
      requires Holds(Plug(c, s)) && Short(c, s) && !IsRed(s)
      requires c.L? && c.n == parent && c.r.T? && !c.r.red && c.r.n == tmp && IsRed(c.r.l) && !IsRed(c.r.r)
      modifies this`heap, this`root, heap.Keys
      ensures heap.Keys == old(heap).Keys
      ensures Holds(u) && RedBlack(u) && Inorder(u) == Inorder(Plug(c, s))
    {
      hide Plug, Short, RedBlack, Nodes, CtxNodes, Fields, CtxFields, Apart, Inorder;
      NearNephewLeft(c, s);
      ghost var v := RaiseNephewLeft(tmp, parent, c, s);
      ghost var c1 := L(c.up, parent, c.red, v);
      FarNephewLeft(c1, s);
      var sibling := NewSiblingLeft(parent, c1, s);
      u := SettleLeft(sibling, parent, c1, s);
    }

    /** One turn of RB_REMOVE_COLOR's loop on parent's left side, the sibling tmp being black. */
    method BlackSiblingLeft(elm: Node?, parent: Node, tmp: Node, ghost c: Ctx, ghost s: Shape)
      returns (settled: bool, ghost c': Ctx, ghost s': Shape, ghost u: Shape)
      requires Holds(Plug(c, s)) && Short(c, s) && !IsRed(s) && elm == Root(s)
      requires c.L? && c.n == parent && c.r.T? && !c.r.red && c.r.n == tmp
      modifies this`heap, this`root, heap.Keys
      ensures heap.Keys == old(heap).Keys
      ensures !settled ==> Holds(Plug(c', s')) && Short(c', s') && c' == c.up && s'.T? && s'.n == parent && s'.red == c.red
      ensures !settled ==> Inorder(Plug(c', s')) == Inorder(Plug(c, s))
      ensures settled ==> Holds(u) && RedBlack(u) && Inorder(u) == Inorder(Plug(c, s))
    {
      hide Plug, Short, RedBlack, Nodes, CtxNodes, Fields, CtxFields, Apart, Inorder;
      ghost var w := c.r;
      ghost var side := R(c.up, parent, c.red, s);
      PlugUp(c, s);
      Look(side, w);
      PlugUp(L(side, tmp, false, w.r), w.l);
      PlugUp(R(side, tmp, false, w.l), w.r);
      if w.l.T? { Look(L(side, tmp, false, w.r), w.l); }
      if w.r.T? { Look(R(side, tmp, false, w.l), w.r); }
      c', s', u := c, s, Leaf;
      if (tmp.left == null || !tmp.left.red) && (tmp.right == null || !tmp.right.red) {
        BlackNephewsLeft(c, s);
        Paint(tmp, true, side, w.l, false, w.r);
        PlugUp(L(c.up, parent, c.red, T(w.l, tmp, true, w.r)), s);
        settled, c', s' := false, c.up, T(s, parent, c.red, T(w.l, tmp, true, w.r));
      } else if tmp.right == null || !tmp.right.red {
        u := SettleInnerLeft(tmp, parent, c, s);
        settled := true;
      } else {
        FarNephewLeft(c, s);
        u := SettleLeft(tmp, parent, c, s);
        settled := true;
      }
    }

    /** One turn of RB_REMOVE_COLOR's loop on parent's left side. */
    method RemoveLeft(elm: Node?, parent: Node, ghost c: Ctx, ghost s: Shape)
      returns (settled: bool, ghost c': Ctx, ghost s': Shape, ghost u: Shape)
      requires Holds(Plug(c, s)) && Short(c, s) && !IsRed(s) && elm == Root(s)
      requires c.L? && c.n == parent
      modifies this`heap, this`root, heap.Keys
      ensures heap.Keys == old(heap).Keys
      ensures !settled ==> Holds(Plug(c', s')) && Short(c', s') && s'.T? && s'.n == parent
      ensures !settled ==> IsRed(s') || Depth(c') < Depth(c)
      ensures !settled ==> Inorder(Plug(c', s')) == Inorder(Plug(c, s))
      ensures settled ==> Holds(u) && RedBlack(u) && Inorder(u) == Inorder(Plug(c, s))
    {
      hide Plug, Short, RedBlack, Nodes, CtxNodes, Fields, CtxFields, Apart, Inorder;
      ShortSibling(c, s);
      var tmp := NewSiblingLeft(parent, c, s);
      PlugUp(c, s);
      Look(R(c.up, parent, c.red, s), c.r);
      if tmp.red {
        RedSiblingLeft(c, s);
        ghost var c1 := RaiseRedSiblingLeft(parent, tmp, c, s);
        ShortSibling(c1, s);
        tmp := NewSiblingLeft(parent, c1, s);
        settled, c', s', u := BlackSiblingLeft(elm, parent, tmp, c1, s);
      } else {
        settled, c', s', u := BlackSiblingLeft(elm, parent, tmp, c, s);
      }
    }

    /** `tmp = RB_LEFT(parent)` after a rotation. */
    method NewSiblingRight(parent: Node, ghost c: Ctx, ghost s: Shape) returns (tmp: Node)
      requires Holds(Plug(c, s)) && c.R? && c.n == parent && c.l.T?
      ensures tmp == c.l.n
    {
      PlugUp(c, s);
      Look(c.up, T(c.l, parent, c.red, s));
      tmp := parent.left;
    }

    /** RB_REMOVE_COLOR, only the inner nephew red: both rotations. */
    method SettleInnerRight(tmp: Node, parent: Node, ghost c: Ctx, ghost s: Shape) returns (ghost u: Shape)
      requires Holds(Plug(c, s)) && Short(c, s) && !IsRed(s)
      requires c.R? && c.n == parent && c.l.T? && !c.l.red && c.l.n == tmp && IsRed(c.l.r) && !IsRed(c.l.l)
      modifies this`heap, this`root, heap.Keys
      ensures heap.Keys == old(heap).Keys
      ensures Holds(u) && RedBlack(u) && Inorder(u) == Inorder(Plug(c, s))
    {
      hide Plug, Short, RedBlack, Nodes, CtxNodes, Fields, CtxFields, Apart, Inorder;
      NearNephewRight(c, s);
      ghost var v := RaiseNephewRight(tmp, parent, c, s);
      ghost var c1 := R(c.up, parent, c.red, v);
      FarNephewRight(c1, s);
      var sibling := NewSiblingRight(parent, c1, s);
      u := SettleRight(sibling, parent, c1, s);
    }

    /** One turn of RB_REMOVE_COLOR's loop on parent's right side, the sibling tmp being black. */
    method BlackSiblingRight(elm: Node?, parent: Node, tmp: Node, ghost c: Ctx, ghost s: Shape)
      returns (settled: bool, ghost c': Ctx, ghost s': Shape, ghost u: Shape)
      requires Holds(Plug(c, s)) && Short(c, s) && !IsRed(s) && elm == Root(s)
      requires c.R? && c.n == parent && c.l.T? && !c.l.red && c.l.n == tmp
      modifies this`heap, this`root, heap.Keys
      ensures heap.Keys == old(heap).Keys
      ensures !settled ==> Holds(Plug(c', s')) && Short(c', s') && c' == c.up && s'.T? && s'.n == parent && s'.red == c.red
      ensures !settled ==> Inorder(Plug(c', s')) == Inorder(Plug(c, s))
      ensures settled ==> Holds(u) && RedBlack(u) && Inorder(u) == Inorder(Plug(c, s))
    {
      hide Plug, Short, RedBlack, Nodes, CtxNodes, Fields, CtxFields, Apart, Inorder;
      ghost var w := c.l;
      ghost var side := L(c.up, parent, c.red, s);
      PlugUp(c, s);
      Look(side, w);
      PlugUp(L(side, tmp, false, w.r), w.l);
      PlugUp(R(side, tmp, false, w.l), w.r);
      if w.l.T? { Look(L(side, tmp, false, w.r), w.l); }
      if w.r.T? { Look(R(side, tmp, false, w.l), w.r); }
      c', s', u := c, s, Leaf;
      if (tmp.left == null || !tmp.left.red) && (tmp.right == null || !tmp.right.red) {
        BlackNephewsRight(c, s);
        Paint(tmp, true, side, w.l, false, w.r);
        PlugUp(R(c.up, parent, c.red, T(w.l, tmp, true, w.r)), s);
        settled, c', s' := false, c.up, T(T(w.l, tmp, true, w.r), parent, c.red, s);
      } else if tmp.left == null || !tmp.left.red {
        u := SettleInnerRight(tmp, parent, c, s);
        settled := true;
      } else {
        FarNephewRight(c, s);
        u := SettleRight(tmp, parent, c, s);
        settled := true;
      }
    }

    /** One turn of RB_REMOVE_COLOR's loop on parent's right side. */
    method RemoveRight(elm: Node?, parent: Node, ghost c: Ctx, ghost s: Shape)
      returns (settled: bool, ghost c': Ctx, ghost s': Shape, ghost u: Shape)
      requires Holds(Plug(c, s)) && Short(c, s) && !IsRed(s) && elm == Root(s)
      requires c.R? && c.n == parent
      modifies this`heap, this`root, heap.Keys
      ensures heap.Keys == old(heap).Keys
      ensures !settled ==> Holds(Plug(c', s')) && Short(c', s') && s'.T? && s'.n == parent
      ensures !settled ==> IsRed(s') || Depth(c') < Depth(c)
      ensures !settled ==> Inorder(Plug(c', s')) == Inorder(Plug(c, s))
      ensures settled ==> Holds(u) && RedBlack(u) && Inorder(u) == Inorder(Plug(c, s))
    {
      hide Plug, Short, RedBlack, Nodes, CtxNodes, Fields, CtxFields, Apart, Inorder;
      ShortSibling(c, s);
      var tmp := NewSiblingRight(parent, c, s);
      PlugUp(c, s);
      Look(L(c.up, parent, c.red, s), c.l);
      if tmp.red {
        RedSiblingRight(c, s);
        ghost var c1 := RaiseRedSiblingRight(parent, tmp, c, s);
        ShortSibling(c1, s);
        tmp := NewSiblingRight(parent, c1, s);
        settled, c', s', u := BlackSiblingRight(elm, parent, tmp, c1, s);
      } else {
        settled, c', s', u := BlackSiblingRight(elm, parent, tmp, c, s);
      }
    }

    /** RB_REMOVE_COLOR. */
    method RemoveColor(parent0: Node?, elm0: Node?, ghost c0: Ctx, ghost s0: Shape) returns (ghost u: Shape)
      requires Holds(Plug(c0, s0)) && Short(c0, s0) && elm0 == Root(s0) && parent0 == Parent(c0)
      modifies this`heap, this`root, heap.Keys
      ensures heap.Keys == old(heap).Keys
      ensures Holds(u) && RedBlack(u) && Inorder(u) == Inorder(Plug(c0, s0))
    {
      hide Plug, Short, RedBlack, Nodes, CtxNodes, Fields, CtxFields, Apart, Inorder;
      var parent, elm := parent0, elm0;
      ghost var c, s := c0, s0;
      var settled := false;
      u := Leaf;
      AtTop(c, s);
      if s.T? { Look(c, s); }
      while (elm == null || !elm.red) && elm != root
        invariant heap.Keys == old(heap).Keys
        invariant Holds(Plug(c, s)) && Short(c, s) && !settled
        invariant elm == Root(s) && parent == Parent(c)
        invariant elm != null ==> elm in heap && elm.red == s.red
        invariant c.Top? <==> root == elm
        invariant Inorder(Plug(c, s)) == Inorder(Plug(c0, s0))
        decreases Turns(c, s)
      {
        LeftOrRight(c, s);
        if parent.left == elm {
          settled, c, s, u := RemoveLeft(elm, parent, c, s);
        } else {
          settled, c, s, u := RemoveRight(elm, parent, c, s);
        }
        if settled {
          elm := root;
          break;
        }
        Look(c, s);
        AtTop(c, s);
        elm := parent;
        parent := elm.parent;
      }
      if settled {
        BlackRoot(u);
        PlugUp(Top, u);
      }
      if elm != null {
        if settled {
          Paint(elm, false, Top, u.l, u.red, u.r);
        } else {
          Paint(elm, false, c, s.l, s.red, s.r);
        }
      }
      if !settled {
        ShortDone(c, s);
        u := Plug(c, Blacken(s));
      }
    }

    /** n is no longer part of the tree; its fields stay as they are. */
    ghost method Forget(n: Node)
      requires Sync()
      modifies this`heap
      ensures Sync() && heap == old(heap) - {n}
    {
      heap := heap - {n};
    }

    /** RB_REMOVE's splice: child takes the place of elm, which has no other child. */
    method Unlink(elm: Node, child: Node?, parent: Node?, ghost c: Ctx, ghost l: Shape, ghost red: bool, ghost r: Shape,
                  ghost k: Shape)
      requires Holds(Plug(c, T(l, elm, red, r)))
      requires ((l.Leaf? && k == r) || (r.Leaf? && k == l)) && child == Root(k) && parent == Parent(c)
      modifies this`heap, this`root, heap.Keys
      ensures heap.Keys == old(heap).Keys - {elm} && elm in old(heap)
      ensures elm.parent == parent
      ensures Holds(Plug(c, k))
    {
      hide Plug, Nodes, CtxNodes, Fields, CtxFields, Apart, Inorder, PutParent, PutChild;
      Splice(c, l, elm, red, r, k);
      PutParentKeeps(heap, child, parent, elm);
      SetParentOf(child, parent);
      PutChildKeeps(heap, parent, elm, child, elm);
      ReplaceChild(parent, elm, child);
      Forget(elm);
    }

    /** `(elm)->field = (old)->field`. */
    method CopyEntry(elm: Node, other: Node)
      requires Sync() && elm !in heap && other in heap
      modifies this`heap, elm
      ensures Sync() && heap == old(heap)[elm := old(heap)[other]]
    {
      elm.left, elm.right, elm.parent, elm.red := other.left, other.right, other.parent, other.red;
      heap := heap[elm := heap[other]];
    }

    /** RB_REMOVE: elm, already taken out, gets other's fields and other's place below p. */
    method WriteIn(elm: Node, other: Node, ghost p: Node?)
      requires Sync() && elm !in heap && other in heap
      requires heap[other].parent == p && p != other && (p != null ==> p in heap)
      modifies this`heap, this`root, heap.Keys, elm
      ensures Sync() && heap == PutChild(old(heap)[elm := old(heap)[other]], p, other, elm)
      ensures heap.Keys == old(heap).Keys + {elm} && heap[other] == old(heap[other])
      ensures root == if p == null then elm else old(root)
    {
      hide PutChild;
      CopyEntry(elm, other);
      PutChildKeeps(heap, p, other, elm, other);
      ReplaceChild(other.parent, other, elm);
    }

    /** RB_REMOVE: the children of other get elm as their parent. */
    method WriteBelow(elm: Node, other: Node, ghost x: Node, ghost y: Node?)
      requires Sync() && other in heap && heap[other].left == x && heap[other].right == y
      requires x in heap && x != other && (y != null ==> y in heap && y != other)
      modifies this`heap, heap.Keys
      ensures Sync() && heap == PutParent(PutParent(old(heap), x, elm), y, elm)
      ensures heap.Keys == old(heap).Keys
    {
      hide PutParent;
      PutParentKeeps(heap, x, elm, other);
      SetParentOf(other.left, elm);
      PutParentKeeps(heap, y, elm, other);
      SetParentOf(other.right, elm);
    }

    /** RB_REMOVE: the writes that put elm, already taken out, in other's place
        below p and above x and y. */
    method WriteOver(elm: Node, other: Node, ghost p: Node?, ghost x: Node, ghost y: Node?)
      requires Sync() && elm !in heap && other in heap && x in heap
      requires (y != null ==> y in heap) && (p != null ==> p in heap)
      requires heap[other].parent == p && heap[other].left == x && heap[other].right == y
      requires Distinct(other, x, y, p)
      modifies this`heap, this`root, heap.Keys, elm
      ensures Sync()
      ensures heap == PutParent(PutParent(PutChild(old(heap)[elm := old(heap)[other]], p, other, elm), x, elm), y, elm) - {other}
      ensures root == if p == null then elm else old(root)
    {
      hide PutParent, PutChild;
      WriteIn(elm, other, p);
      WriteBelow(elm, other, x, y);
      Forget(other);
    }

    method TakePlace(elm: Node, other: Node, ghost c: Ctx, ghost l: Shape, ghost red: bool, ghost r: Shape)
      requires Holds(Plug(c, T(l, other, red, r))) && l.T? && elm !in heap
      modifies this`heap, this`root, heap.Keys, elm
      ensures heap.Keys == old(heap).Keys - {other} + {elm}
      ensures Holds(Plug(c, T(l, elm, red, r)))
    {
      hide Plug, Nodes, CtxNodes, Fields, CtxFields, Apart, Inorder, PutParent, PutChild, Distinct;
      Substitute(c, l, other, red, r, elm);
      SubstituteEntries(c, l, other, red, r);
      SubstituteApart(c, l, other, red, r, elm);
      WriteOver(elm, other, Parent(c), l.n, Root(r));
    }

    /** RB_REMOVE of an element with at most one child. */
    method RemoveOneChild(elm: Node, child: Node?, ghost c: Ctx, ghost s: Shape, ghost k: Shape) returns (ghost u: Shape)
      requires Holds(Plug(c, s)) && RedBlack(Plug(c, s)) && s.T? && s.n == elm
      requires ((s.l.Leaf? && k == s.r) || (s.r.Leaf? && k == s.l)) && child == Root(k)
      modifies this`heap, this`root, heap.Keys
      ensures heap.Keys == old(heap).Keys - {elm}
      ensures Holds(u) && RedBlack(u) && Removed(Inorder(Plug(c, s)), elm, Inorder(u))
    {
      hide Plug, Nodes, CtxNodes, Fields, CtxFields, Apart, Inorder, RedBlack, Short, Removed;
      Look(c, s);
      SpliceInorder(c, s.l, elm, s.red, s.r, k);
      if s.red { ShortStartRed(c, s, k); } else { ShortStartBlack(c, s, k); }
      var parent := elm.parent;
      var color := elm.red;
      Unlink(elm, child, parent, c, s.l, s.red, s.r, k);
      u := Plug(c, k);
      if !color {
        u := RemoveColor(parent, child, c, k);
      }
    }

    /** RB_REMOVE: the leftmost element of the right subtree. */
    method Successor(elm: Node, ghost c: Ctx, ghost l: Shape, ghost red: bool, ghost r: Shape)
      returns (next: Node, ghost c2: Ctx, ghost mred: bool, ghost mr: Shape)
      requires Holds(Plug(c, T(l, elm, red, r))) && r.T?
      ensures LeftSpine(c2) && r == Plug(c2, T(Leaf, next, mred, mr))
      ensures next in heap && next.right == Root(mr) && next.red == mred
      ensures next.parent == Parent(Extend(c2, R(c, elm, red, l)))
    {
      hide Nodes, CtxNodes, Fields, CtxFields, Apart, Inorder;
      ghost var base := R(c, elm, red, l);
      Look(c, T(l, elm, red, r));
      next := elm.right;
      c2 := Top;
      ghost var s := r;
      ExtendPlug(c2, base, s);
      Look(Extend(c2, base), s);
      var left := next.left;
      while left != null
        invariant LeftSpine(c2) && r == Plug(c2, s) && s.T? && s.n == next
        invariant Plug(Extend(c2, base), s) == Plug(c, T(l, elm, red, r))
        invariant next in heap && left == next.left == Root(s.l) && next.right == Root(s.r)
        invariant next.parent == Parent(Extend(c2, base)) && next.red == s.red
        decreases s
      {
        next := left;
        c2, s := L(c2, s.n, s.red, s.r), s.l;
        ExtendPlug(c2, base, s);
        Look(Extend(c2, base), s);
        left := next.left;
      }
      mred, mr := s.red, s.r;
    }

    /** RB_REMOVE of an element with two children: its successor takes its place. */
    method RemoveTwoChildren(elm: Node, ghost c: Ctx, ghost s: Shape) returns (ghost u: Shape)
      requires Holds(Plug(c, s)) && RedBlack(Plug(c, s)) && s.T? && s.n == elm && s.l.T? && s.r.T?
      modifies this`heap, this`root, heap.Keys
      ensures heap.Keys == old(heap).Keys - {elm}
      ensures Holds(u) && RedBlack(u) && Removed(Inorder(Plug(c, s)), elm, Inorder(u))
    {
      hide Plug, Nodes, CtxNodes, Fields, CtxFields, Apart, Inorder, RedBlack, Short, Removed, LeftSpine, Extend;
      var next, c2, mred, mr := Successor(elm, c, s.l, s.red, s.r);
      ghost var c0, c1 := Extend(c2, R(c, elm, s.red, s.l)), Extend(c2, R(c, next, s.red, s.l));
      ghost var between := Plug(c2, mr);
      SuccessorFacts(c, s.l, elm, s.red, c2, next, mred, mr, Plug(c, s), c0, c1, between);
      var child := next.right;
      var parent := next.parent;
      var color := next.red;
      ghost var all := heap.Keys;
      Unlink(next, child, parent, c0, Leaf, mred, mr, mr);
      assert heap.Keys == all - {next} && next in all;
      if next.parent == elm {
        parent := next;
      }
      TakePlace(next, elm, c, s.l, s.red, between);
      assert heap.Keys == all - {elm};
      u := Plug(c1, mr);
      if !color {
        u := RemoveColor(parent, child, c1, mr);
      }
    }

    /** RB_REMOVE: elm, an element of the tree, is taken out and nothing else. */
    method Remove(elm: Node) returns (removed: Node)
      requires Valid() && elm in Nodes(shape)
      modifies this, heap.Keys
      ensures Valid() && removed == elm && heap.Keys == old(heap).Keys - {elm}
      ensures Removed(Inorder(old(shape)), elm, Inorder(shape))
    {
      hide Plug, Nodes, CtxNodes, Fields, CtxFields, Apart, Inorder, RedBlack, Removed, Sorted;
      ghost var c, s := Locate(Top, shape, elm);
      PlugUp(Top, shape);
      Look(c, s);
      ghost var u;
      if elm.left == null {
        u := RemoveOneChild(elm, elm.right, c, s, s.r);
      } else if elm.right == null {
        u := RemoveOneChild(elm, elm.left, c, s, s.l);
      } else {
        u := RemoveTwoChildren(elm, c, s);
      }
      RemovedSorted(Inorder(shape), elm, Inorder(u));
      shape := u;
      return elm;
    }

    // ---------- queries ----------

    /** RB_FIND: the element with the given key, or NULL when there is none. */
    method Find(key: int) returns (found: Node?)
      requires Valid()
      ensures found != null ==> found.key == key && exists i :: 0 <= i < |Inorder(shape)| && Inorder(shape)[i] == found
      ensures found == null ==> forall i :: 0 <= i < |Inorder(shape)| ==> Inorder(shape)[i].key != key
    {
      hide Plug, Nodes, CtxNodes, Fields, CtxFields, Apart, RedBlack, Between;
      var tmp := root;
      ghost var c, s := Top, shape;
      PlugUp(c, s);
      BetweenTop(key);
      while tmp != null
        invariant shape == Plug(c, s) && tmp == Root(s) && Between(c, key)
        decreases s
      {
        Look(c, s);
        SearchStep(c, s, key);
        var comp := key - tmp.key;
        if comp < 0 {
          tmp := tmp.left;
          c, s := L(c, s.n, s.red, s.r), s.l;
          PlugUp(c, s);
        } else if comp > 0 {
          tmp := tmp.right;
          c, s := R(c, s.n, s.red, s.l), s.r;
          PlugUp(c, s);
        } else {
          PlugInorder(c, s);
          Following(Before(c), Inorder(s.l), s.n, Inorder(s.r), After(c));
          return tmp;
        }
      }
      PlugInorder(c, Leaf);
      NotBetween(c, key);
      return null;
    }

    /** RB_NFIND: the first element whose key is at least the given one. */
    method Nfind(key: int) returns (res: Node?)
      requires Valid()
      ensures res == null ==> AllBelow(Inorder(shape), key)
      ensures res != null ==>
                exists i :: 0 <= i < |Inorder(shape)| && Inorder(shape)[i] == res && res.key >= key
                            && AllBelow(Inorder(shape)[..i], key)
    {
      hide Plug, Nodes, CtxNodes, Fields, CtxFields, Apart, RedBlack, Between;
      var tmp := root;
      res := null;
      ghost var c, s := Top, shape;
      PlugUp(c, s);
      BetweenTop(key);
      while tmp != null
        invariant shape == Plug(c, s) && tmp == Root(s) && Between(c, key)
        invariant res == First(After(c))
        decreases s
      {
        Look(c, s);
        SearchStep(c, s, key);
        var comp := key - tmp.key;
        if comp < 0 {
          res := tmp;
          tmp := tmp.left;
          c, s := L(c, s.n, s.red, s.r), s.l;
          PlugUp(c, s);
        } else if comp > 0 {
          tmp := tmp.right;
          c, s := R(c, s.n, s.red, s.l), s.r;
          PlugUp(c, s);
        } else {
          PlugInorder(c, s);
          FoundAt(c, s, key);
          return tmp;
        }
      }
      PlugInorder(c, Leaf);
      NotFoundAt(c, key);
    }

    /** RB_MINMAX: the first element for a negative argument, the last otherwise. */
    method MinMax(val: int) returns (parent: Node?)
      requires Valid()
      ensures var q := Inorder(shape);
              parent == if q == [] then null else if val < 0 then q[0] else q[|q| - 1]
    {
      hide Plug, Nodes, CtxNodes, Fields, CtxFields, Apart, RedBlack, Inorder;
      var tmp := root;
      parent := null;
      ghost var c, s := Top, shape;
      ghost var last := Leaf;
      PlugUp(c, s);
      InorderNonempty(s);
      while tmp != null
        invariant shape == Plug(c, s) && tmp == Root(s)
        invariant shape.T? <==> Inorder(shape) != []
        invariant s.T? <==> Inorder(s) != []
        invariant s.T? ==> shape.T? && (if val < 0 then Inorder(s)[0] == Inorder(shape)[0]
                                        else Inorder(s)[|Inorder(s)| - 1] == Inorder(shape)[|Inorder(shape)| - 1])
        invariant s.Leaf? ==> if shape.Leaf? then parent == null
                              else parent == if val < 0 then Inorder(shape)[0] else Inorder(shape)[|Inorder(shape)| - 1]
        decreases s
      {
        Look(c, s);
        InorderNonempty(s);
        parent := tmp;
        if val < 0 {
          tmp := tmp.left;
          c, s := L(c, s.n, s.red, s.r), s.l;
        } else {
          tmp := tmp.right;
          c, s := R(c, s.n, s.red, s.l), s.r;
        }
        PlugUp(c, s);
        InorderNonempty(s);
      }
    }

    /** RB_NEXT: the element after elm in the order, or NULL after the last. */
    method Next(elm: Node) returns (next: Node?)
      requires Valid() && elm in Nodes(shape)
      ensures forall i :: 0 <= i < |Inorder(shape)| && Inorder(shape)[i] == elm ==>
                next == if i + 1 < |Inorder(shape)| then Inorder(shape)[i + 1] else null
    {
      hide Plug, Nodes, CtxNodes, Fields, CtxFields, Apart, RedBlack;
      ghost var c, s := Locate(Top, shape, elm);
      PlugUp(Top, shape);
      PlugInorder(c, s);
      ghost var i0 := |Before(c)| + |Inorder(s.l)|;
      Following(Before(c), Inorder(s.l), elm, Inorder(s.r), After(c));
      Look(c, s);
      InorderNonempty(s.r);
      if elm.right != null {
        PlugUp(R(c, elm, s.red, s.l), s.r);
        next := Leftmost(elm, R(c, elm, s.red, s.l), s);
      } else {
        next := Ascend(elm, c, s);
      }
      forall i | 0 <= i < |Inorder(shape)| && Inorder(shape)[i] == elm
        ensures next == if i + 1 < |Inorder(shape)| then Inorder(shape)[i + 1] else null
      {
        SamePosition(Inorder(shape), i, i0);
      }
    }

    /** RB_NEXT below elm: right once, then left to the end. */
    method Leftmost(elm: Node, ghost c: Ctx, ghost s: Shape) returns (next: Node)
      requires Valid() && s.T? && s.n == elm && s.r.T? && c.R? && c == R(c.up, s.n, s.red, s.l) && shape == Plug(c, s.r)
      ensures Inorder(s.r) != [] && next == Inorder(s.r)[0]
    {
      hide Plug, Nodes, CtxNodes, Fields, CtxFields, Apart, RedBlack, Inorder;
      ghost var cc, ss := c, s.r;
      PlugUp(c, s.r);
      Look(c.up, s);
      next := elm.right;
      InorderNonempty(ss);
      Look(cc, ss);
      while next.left != null
        invariant shape == Plug(cc, ss) && ss.T? && next == ss.n && Inorder(ss) != []
        invariant next in heap && next.left == Root(ss.l)
        invariant Inorder(s.r) != [] && Inorder(ss)[0] == Inorder(s.r)[0]
        decreases ss
      {
        InorderNonempty(ss);
        next := next.left;
        cc, ss := L(cc, ss.n, ss.red, ss.r), ss.l;
        PlugUp(cc, ss);
        InorderNonempty(ss);
        Look(cc, ss);
      }
      InorderNonempty(ss);
    }

    /** RB_NEXT above elm: up while elm is a right child, then once more. */
    method Ascend(elm: Node, ghost c: Ctx, ghost s: Shape) returns (next: Node?)
      requires Valid() && s.T? && s.n == elm && shape == Plug(c, s)
      ensures next == First(After(c))
    {
      hide Plug, Nodes, CtxNodes, Fields, CtxFields, Apart, RedBlack, Inorder;
      Look(c, s);
      if !c.Top? { LookUp(c, s); }
      if elm.parent != null && elm == elm.parent.left {
        next := elm.parent;
      } else {
        var e := elm;
        ghost var cc, ss := c, s;
        while e.parent != null && e == e.parent.right
          invariant shape == Plug(cc, ss) && ss.T? && ss.n == e && e in heap && e.parent == Parent(cc)
          invariant !cc.Top? ==> cc.n in heap && (cc.R? <==> cc.n.right == e) && (cc.L? <==> cc.n.left == e)
          invariant After(cc) == After(c)
          decreases Depth(cc)
        {
          PlugUp(cc, ss);
          e := e.parent;
          ss := T(cc.l, cc.n, cc.red, ss);
          cc := cc.up;
          Look(cc, ss);
          if !cc.Top? { LookUp(cc, ss); }
        }
        next := e.parent;
      }
    }
  }
}
