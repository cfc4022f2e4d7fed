/**
 What the four RB_ENTRY fields of every node must hold for the pointers to
 spell out a given shape, as a map from nodes to field values.
 */
module RbFields {
  import opened RbShape

  datatype Entry = Entry(left: Node?, right: Node?, parent: Node?, red: bool)

  function Fields(s: Shape, p: Node?): (m: map<Node, Entry>)
    ensures m.Keys == Nodes(s)
  {
    match s
    case Leaf => map[]
    case T(l, n, red, r) => (Fields(l, n) + Fields(r, n))[n := Entry(Root(l), Root(r), p, red)]
  }

  /** The same for a context whose hole has root x. */
  function CtxFields(c: Ctx, x: Node?): (m: map<Node, Entry>)
    ensures m.Keys == CtxNodes(c)
  {
    match c
    case Top => map[]
    case L(up, n, red, r) => (CtxFields(up, n) + Fields(r, n))[n := Entry(x, Root(r), Parent(up), red)]
    case R(up, n, red, l) => (CtxFields(up, n) + Fields(l, n))[n := Entry(Root(l), x, Parent(up), red)]
  }

  function Outermost(c: Ctx, x: Node?): Node? {
    if c.Top? then x else Outermost(c.up, c.n)
  }

  lemma {:induction false} PlugApart(c: Ctx, s: Shape)
    ensures Apart(Plug(c, s)) <==> CtxApart(c) && Apart(s) && CtxNodes(c) !! Nodes(s)
  {
    match c
    case Top =>
    case L(up, n, red, r) =>
      PlugApart(up, T(s, n, red, r));
      assert Nodes(T(s, n, red, r)) == Nodes(s) + {n} + Nodes(r);
    case R(up, n, red, l) =>
      PlugApart(up, T(l, n, red, s));
      assert Nodes(T(l, n, red, s)) == Nodes(l) + {n} + Nodes(s);
  }

  lemma {:induction false} Shuffle<K, V>(up: map<K, V>, s: map<K, V>, r: map<K, V>, n: K, e: V)
    requires n !in s && s.Keys !! r.Keys && up.Keys !! s.Keys
    ensures up + (s + r)[n := e] == (up + r)[n := e] + s
    ensures up + (r + s)[n := e] == (up + r)[n := e] + s
  {
  }

  /** The fields of a whole tree, split at a hole. */
  lemma {:induction false} PlugFields(c: Ctx, s: Shape)
    requires Apart(Plug(c, s))
    ensures Fields(Plug(c, s), null) == CtxFields(c, Root(s)) + Fields(s, Parent(c))
    ensures Root(Plug(c, s)) == Outermost(c, Root(s))
  {
    PlugApart(c, s);
    match c
    case Top =>
    case L(up, n, red, r) =>
      PlugFields(up, T(s, n, red, r));
      Shuffle(CtxFields(up, n), Fields(s, n), Fields(r, n), n, Entry(Root(s), Root(r), Parent(up), red));
    case R(up, n, red, l) =>
      PlugFields(up, T(l, n, red, s));
      Shuffle(CtxFields(up, n), Fields(s, n), Fields(l, n), n, Entry(Root(l), Root(s), Parent(up), red));
  }

  /** Hanging a subtree below another parent changes its root's parent field only. */
  lemma {:induction false} Reparent(s: Shape, p: Node?, q: Node?)
    ensures s.T? ==> s.n in Fields(s, p) && Fields(s, q) == Fields(s, p)[s.n := Fields(s, p)[s.n].(parent := q)]
    ensures s.Leaf? ==> Fields(s, q) == Fields(s, p)
  {
  }

  /** Filling the hole with another root changes one child link only. */
  function WithChild(c: Ctx, e: Entry, y: Node?): Entry {
    if c.L? then e.(left := y) else e.(right := y)
  }

  lemma {:induction false} Rechild(c: Ctx, x: Node?, y: Node?)
    ensures !c.Top? ==> c.n in CtxFields(c, x)
                        && CtxFields(c, y) == CtxFields(c, x)[c.n := WithChild(c, CtxFields(c, x)[c.n], y)]
    ensures c.Top? ==> CtxFields(c, y) == CtxFields(c, x)
  {
  }

  // ---------- rotations ----------

  /** x on top with y as right child, and the same after rotating left. */
  function XTop(a: Shape, x: Node, xr: bool, b: Shape, y: Node, yr: bool, d: Shape): Shape {
    T(a, x, xr, T(b, y, yr, d))
  }

  function YTop(a: Shape, x: Node, xr: bool, b: Shape, y: Node, yr: bool, d: Shape): Shape {
    T(T(a, x, xr, b), y, yr, d)
  }

  ghost predicate SameBut(m: map<Node, Entry>, k: map<Node, Entry>, but: set<Node?>) {
    && m.Keys == k.Keys
    && forall n :: n in m && n !in but ==> k[n] == m[n]
  }

  /** m and k differ as the trees before and after a left rotation of x with
      right child y differ: b is the subtree that changes sides and p the node
      above; r and r' are the root pointers. */
  ghost predicate Rotates(m: map<Node, Entry>, k: map<Node, Entry>, x: Node, y: Node, b: Node?, p: Node?,
                          r: Node?, r': Node?)
  {
    && x in m && y in m && x != y && SameBut(m, k, {x, y, b, p})
    && m[x].right == y && m[x].parent == p && m[y].left == b && m[y].parent == x
    && k[x] == m[x].(right := b, parent := y)
    && k[y] == m[y].(left := x, parent := p)
    && (b != null ==> b in m && b != x && b != y && b != p && m[b].parent == y && k[b] == m[b].(parent := x))
    && (p != null ==>
          && p in m && p != x && p != y && r == r'
          && (if m[p].left == x then k[p] == m[p].(left := y)
              else m[p].right == x && k[p] == m[p].(right := y) && k[p].left != y))
    && (p == null ==> r == x && r' == y)
  }

  /** The two sides of a rotation as maps over the parts a, b, d. */
  lemma {:induction false} RotationMaps(A: map<Node, Entry>, B: map<Node, Entry>, B': map<Node, Entry>, D: map<Node, Entry>,
                     x: Node, e: Entry, e': Entry, y: Node, f: Entry, f': Entry, but: set<Node?>)
    requires A.Keys !! B.Keys && A.Keys !! D.Keys && B.Keys !! D.Keys
    requires x != y && x !in A && x !in B && x !in D && y !in A && y !in B && y !in D
    requires SameBut(B, B', but)
    ensures var m := (A + (B + D)[y := f])[x := e];
            var k := ((A + B')[x := e'] + D)[y := f'];
            && m.Keys == k.Keys && m[x] == e && m[y] == f && k[x] == e' && k[y] == f'
            && (forall n :: n in B ==> m[n] == B[n] && k[n] == B'[n])
            && SameBut(m, k, {x, y} + but)
  {
  }

  lemma {:induction false} RotationApart(a: Shape, x: Node, xr: bool, b: Shape, y: Node, yr: bool, d: Shape)
    ensures Apart(XTop(a, x, xr, b, y, yr, d)) <==> Apart(YTop(a, x, xr, b, y, yr, d))
    ensures Nodes(XTop(a, x, xr, b, y, yr, d)) == Nodes(YTop(a, x, xr, b, y, yr, d))
    ensures Apart(XTop(a, x, xr, b, y, yr, d)) ==>
              && Nodes(a) !! Nodes(b) && Nodes(a) !! Nodes(d) && Nodes(b) !! Nodes(d) && x != y
              && x !in Nodes(a) && x !in Nodes(b) && x !in Nodes(d)
              && y !in Nodes(a) && y !in Nodes(b) && y !in Nodes(d)
  {
    assert Nodes(T(b, y, yr, d)) == Nodes(b) + {y} + Nodes(d);
    assert Nodes(T(a, x, xr, b)) == Nodes(a) + {x} + Nodes(b);
  }

  lemma {:induction false} LocalRotation(p: Node?, a: Shape, x: Node, xr: bool, b: Shape, y: Node, yr: bool, d: Shape)
    requires Apart(XTop(a, x, xr, b, y, yr, d))
    ensures var m := Fields(XTop(a, x, xr, b, y, yr, d), p);
            var k := Fields(YTop(a, x, xr, b, y, yr, d), p);
            && x in m && y in m && x != y && SameBut(m, k, {x, y, Root(b)})
            && m[x] == Entry(Root(a), y, p, xr) && m[y] == Entry(Root(b), Root(d), x, yr)
            && k[x] == Entry(Root(a), Root(b), y, xr) && k[y] == Entry(x, Root(d), p, yr)
            && (b.T? ==> b.n in m && b.n != x && b.n != y && m[b.n].parent == y && k[b.n] == m[b.n].(parent := x))
  {
    Reparent(b, y, x);
    RotationApart(a, x, xr, b, y, yr, d);
    RotationMaps(Fields(a, x), Fields(b, y), Fields(b, x), Fields(d, y),
                 x, Entry(Root(a), y, p, xr), Entry(Root(a), Root(b), y, xr),
                 y, Entry(Root(b), Root(d), x, yr), Entry(x, Root(d), p, yr), {Root(b)});
  }

  /** Rotating below c changes the fields exactly as Rotates says. */
  lemma {:induction false} Rotation(c: Ctx, a: Shape, x: Node, xr: bool, b: Shape, y: Node, yr: bool, d: Shape)
    requires Apart(Plug(c, XTop(a, x, xr, b, y, yr, d))) || Apart(Plug(c, YTop(a, x, xr, b, y, yr, d)))
    ensures Apart(Plug(c, XTop(a, x, xr, b, y, yr, d))) && Apart(Plug(c, YTop(a, x, xr, b, y, yr, d)))
    ensures Nodes(Plug(c, XTop(a, x, xr, b, y, yr, d))) == Nodes(Plug(c, YTop(a, x, xr, b, y, yr, d)))
    ensures var t := Plug(c, XTop(a, x, xr, b, y, yr, d));
            var u := Plug(c, YTop(a, x, xr, b, y, yr, d));
            Rotates(Fields(t, null), Fields(u, null), x, y, Root(b), Parent(c), Root(t), Root(u))
  {
    var s := XTop(a, x, xr, b, y, yr, d);
    var s' := YTop(a, x, xr, b, y, yr, d);
    RotationApart(a, x, xr, b, y, yr, d);
    PlugApart(c, s);
    PlugApart(c, s');
    PlugNodes(c, s);
    PlugNodes(c, s');
    LocalRotation(Parent(c), a, x, xr, b, y, yr, d);
    PlugFields(c, s);
    PlugFields(c, s');
    Rechild(c, x, y);
    assert Fields(s, Parent(c)).Keys == Nodes(s);
    OuterRotation(c, CtxFields(c, x), CtxFields(c, y), Fields(s, Parent(c)), Fields(s', Parent(c)), x, y, Root(b));
  }

  lemma {:induction false} OuterRotation(c: Ctx, C: map<Node, Entry>, C': map<Node, Entry>, M: map<Node, Entry>, K: map<Node, Entry>,
                      x: Node, y: Node, b: Node?)
    requires CtxApart(c) && C == CtxFields(c, x) && C' == CtxFields(c, y) && C.Keys !! M.Keys
    requires x in M && y in M && x != y && SameBut(M, K, {x, y, b})
    requires M[x].right == y && M[x].parent == Parent(c) && M[y].left == b && M[y].parent == x
    requires K[x] == M[x].(right := b, parent := y) && K[y] == M[y].(left := x, parent := Parent(c))
    requires b != null ==> b in M && b != x && b != y && M[b].parent == y && K[b] == M[b].(parent := x)
    ensures Rotates(C + M, C' + K, x, y, b, Parent(c), Outermost(c, x), Outermost(c, y))
  {
    Rechild(c, x, y);
    if !c.Top? {
      assert c.n in C && C[c.n] == (if c.L? then Entry(x, Root(c.r), Parent(c.up), c.red)
                                    else Entry(Root(c.l), x, Parent(c.up), c.red));
      if c.R? { assert c.l.T? ==> c.l.n in Nodes(c.l) && c.l.n in C; }
    }
  }

  function PutParent(m: map<Node, Entry>, n: Node?, v: Node?): map<Node, Entry>
    requires n != null ==> n in m
  {
    if n == null then m else m[n := m[n].(parent := v)]
  }

  /** p's link to x now refers to y. */
  function PutChild(m: map<Node, Entry>, p: Node?, x: Node?, y: Node?): map<Node, Entry>
    requires p != null ==> p in m
  {
    if p == null then m
    else m[p := if m[p].left == x then m[p].(left := y) else m[p].(right := y)]
  }

  /** A write to the entry of n leaves every other entry, and the entries there are. */
  lemma {:induction false} PutParentKeeps(m: map<Node, Entry>, n: Node?, v: Node?, z: Node)
    requires n != null ==> n in m
    ensures PutParent(m, n, v).Keys == m.Keys
    ensures z in m && z != n ==> PutParent(m, n, v)[z] == m[z]
  {
  }

  lemma {:induction false} PutChildKeeps(m: map<Node, Entry>, p: Node?, x: Node?, y: Node?, z: Node)
    requires p != null ==> p in m
    ensures PutChild(m, p, x, y).Keys == m.Keys
    ensures z in m && z != p ==> PutChild(m, p, x, y)[z] == m[z]
  {
  }

  /** The writes of RB_ROTATE_LEFT, in order. */
  function LeftWrites(m: map<Node, Entry>, elm: Node, tmp: Node, b: Node?, p: Node?): map<Node, Entry>
    requires elm in m && tmp in m && (b != null ==> b in m) && (p != null ==> p in m)
  {
    var m1 := m[elm := m[elm].(right := b)];
    var m2 := PutParent(m1, b, elm);
    var m3 := m2[tmp := m2[tmp].(parent := p)];
    var m4 := PutChild(m3, p, elm, tmp);
    var m5 := m4[tmp := m4[tmp].(left := elm)];
    m5[elm := m5[elm].(parent := tmp)]
  }

  lemma {:induction false} LeftWritesRotate(m: map<Node, Entry>, k: map<Node, Entry>, x: Node, y: Node, b: Node?, p: Node?,
                         r: Node?, r': Node?)
    requires Rotates(m, k, x, y, b, p, r, r')
    ensures LeftWrites(m, x, y, b, p) == k
  {
    var w := LeftWrites(m, x, y, b, p);
    assert w.Keys == k.Keys;
    assert w[x] == k[x] && w[y] == k[y];
    assert b != null ==> w[b] == k[b];
    assert p != null ==> w[p] == k[p];
    forall n | n in w && n !in {x, y, b, p}
      ensures w[n] == k[n]
    {
      assert w[n] == m[n];
    }
  }

  /** The writes of RB_ROTATE_RIGHT, in order. */
  function RightWrites(m: map<Node, Entry>, elm: Node, tmp: Node, b: Node?, p: Node?): map<Node, Entry>
    requires elm in m && tmp in m && (b != null ==> b in m) && (p != null ==> p in m)
  {
    var m1 := m[elm := m[elm].(left := b)];
    var m2 := PutParent(m1, b, elm);
    var m3 := m2[tmp := m2[tmp].(parent := p)];
    var m4 := PutChild(m3, p, elm, tmp);
    var m5 := m4[tmp := m4[tmp].(right := elm)];
    m5[elm := m5[elm].(parent := tmp)]
  }

  lemma {:induction false} RightWritesRotate(m: map<Node, Entry>, k: map<Node, Entry>, x: Node, y: Node, b: Node?, p: Node?,
                         r: Node?, r': Node?)
    requires Rotates(m, k, x, y, b, p, r, r')
    ensures RightWrites(k, y, x, b, p) == m
  {
    var w := RightWrites(k, y, x, b, p);
    assert w.Keys == m.Keys;
    assert w[x] == m[x] && w[y] == m[y];
    assert b != null ==> w[b] == m[b];
    assert p != null ==> w[p] == m[p];
    forall n | n in w && n !in {x, y, b, p}
      ensures w[n] == m[n]
    {
      assert w[n] == k[n];
    }
  }

  // ---------- reading and painting one node ----------

  /** What a whole tree's fields say about the node at a hole. */
  lemma {:induction false} Look(c: Ctx, s: Shape)
    requires Apart(Plug(c, s)) && s.T?
    ensures s.n in Fields(Plug(c, s), null)
    ensures Fields(Plug(c, s), null)[s.n] == Entry(Root(s.l), Root(s.r), Parent(c), s.red)
  {
    PlugFields(c, s);
  }

  lemma {:induction false} Repaint(c: Ctx, l: Shape, n: Node, red: bool, r: Shape, v: bool)
    requires Apart(Plug(c, T(l, n, red, r)))
    ensures Apart(Plug(c, T(l, n, v, r)))
    ensures var m := Fields(Plug(c, T(l, n, red, r)), null);
            n in m && Fields(Plug(c, T(l, n, v, r)), null) == m[n := m[n].(red := v)]
    ensures Root(Plug(c, T(l, n, v, r))) == Root(Plug(c, T(l, n, red, r)))
    ensures Inorder(Plug(c, T(l, n, v, r))) == Inorder(Plug(c, T(l, n, red, r)))
  {
    PlugApart(c, T(l, n, red, r));
    PlugApart(c, T(l, n, v, r));
    PlugFields(c, T(l, n, red, r));
    PlugFields(c, T(l, n, v, r));
    PlugInorder(c, T(l, n, red, r));
    PlugInorder(c, T(l, n, v, r));
    RepaintMaps(CtxFields(c, n), Fields(l, n) + Fields(r, n), n, Entry(Root(l), Root(r), Parent(c), red), v);
  }

  lemma {:induction false} RepaintMaps(C: map<Node, Entry>, M: map<Node, Entry>, n: Node, e: Entry, v: bool)
    requires n !in C
    ensures (C + M[n := e])[n := e.(red := v)] == C + M[n := e.(red := v)]
  {
  }

  lemma {:induction false} RotationInorder(c: Ctx, a: Shape, x: Node, xr: bool, b: Shape, y: Node, yr: bool, d: Shape)
    ensures Inorder(Plug(c, XTop(a, x, xr, b, y, yr, d))) == Inorder(Plug(c, YTop(a, x, xr, b, y, yr, d)))
  {
    PlugInorder(c, XTop(a, x, xr, b, y, yr, d));
    PlugInorder(c, YTop(a, x, xr, b, y, yr, d));
    var A, B, D := Inorder(a), Inorder(b), Inorder(d);
    assert A + [x] + (B + [y] + D) == (A + [x] + B) + [y] + D;
  }

  /** All a caller needs to rotate left below c. */
  lemma {:induction false} LeftRotation(c: Ctx, a: Shape, x: Node, xr: bool, b: Shape, y: Node, yr: bool, d: Shape)
    requires Apart(Plug(c, XTop(a, x, xr, b, y, yr, d)))
    ensures Apart(Plug(c, YTop(a, x, xr, b, y, yr, d)))
    ensures var t := Plug(c, XTop(a, x, xr, b, y, yr, d));
            var u := Plug(c, YTop(a, x, xr, b, y, yr, d));
            var m := Fields(t, null);
            && Rotates(m, Fields(u, null), x, y, Root(b), Parent(c), Root(t), Root(u))
            && LeftWrites(m, x, y, Root(b), Parent(c)) == Fields(u, null)
            && Inorder(u) == Inorder(t)
  {
    Rotation(c, a, x, xr, b, y, yr, d);
    RotationInorder(c, a, x, xr, b, y, yr, d);
    var t := Plug(c, XTop(a, x, xr, b, y, yr, d));
    var u := Plug(c, YTop(a, x, xr, b, y, yr, d));
    LeftWritesRotate(Fields(t, null), Fields(u, null), x, y, Root(b), Parent(c), Root(t), Root(u));
  }

  /** All a caller needs to rotate right below c. */
  lemma {:induction false} RightRotation(c: Ctx, a: Shape, x: Node, xr: bool, b: Shape, y: Node, yr: bool, d: Shape)
    requires Apart(Plug(c, YTop(a, x, xr, b, y, yr, d)))
    ensures Apart(Plug(c, XTop(a, x, xr, b, y, yr, d)))
    ensures var t := Plug(c, XTop(a, x, xr, b, y, yr, d));
            var u := Plug(c, YTop(a, x, xr, b, y, yr, d));
            var k := Fields(u, null);
            && Rotates(Fields(t, null), k, x, y, Root(b), Parent(c), Root(t), Root(u))
            && RightWrites(k, y, x, Root(b), Parent(c)) == Fields(t, null)
            && Inorder(t) == Inorder(u)
  {
    Rotation(c, a, x, xr, b, y, yr, d);
    RotationInorder(c, a, x, xr, b, y, yr, d);
    var t := Plug(c, XTop(a, x, xr, b, y, yr, d));
    var u := Plug(c, YTop(a, x, xr, b, y, yr, d));
    RightWritesRotate(Fields(t, null), Fields(u, null), x, y, Root(b), Parent(c), Root(t), Root(u));
  }

  /** The parent's link on the hole's side, and only that one, is the hole's root. */
  lemma {:induction false} LookUp(c: Ctx, s: Shape)
    requires Apart(Plug(c, s)) && s.T? && !c.Top?
    ensures var m := Fields(Plug(c, s), null);
            && c.n in m && c.n != s.n
            && m[c.n].parent == Parent(c.up) && m[c.n].red == c.red
            && (c.L? ==> m[c.n].left == s.n && m[c.n].right == Root(c.r) && m[c.n].right != s.n)
            && (c.R? ==> m[c.n].right == s.n && m[c.n].left == Root(c.l) && m[c.n].left != s.n)
  {
    PlugApart(c, s);
    PlugFields(c, s);
    if c.L? { assert c.r.T? ==> c.r.n in Nodes(c.r); } else { assert c.l.T? ==> c.l.n in Nodes(c.l); }
  }

  lemma {:induction false} AttachMaps<K, V>(C: map<K, V>, p: K, e: V, n: K, f: V)
    requires n !in C && p in C
    ensures C[p := e] + map[n := f] == C[n := f][p := e]
  {
  }

  lemma {:induction false} AttachApart(c: Ctx, elm: Node)
    requires Apart(Plug(c, Leaf)) && elm !in Nodes(Plug(c, Leaf))
    ensures Apart(Plug(c, T(Leaf, elm, true, Leaf)))
    ensures elm !in CtxNodes(c)
  {
    PlugNodes(c, Leaf);
    PlugApart(c, Leaf);
    PlugApart(c, T(Leaf, elm, true, Leaf));
  }

  lemma {:induction false} AttachFields(c: Ctx, elm: Node)
    requires Apart(Plug(c, Leaf)) && elm !in Nodes(Plug(c, Leaf))
    ensures Fields(Plug(c, Leaf), null) == CtxFields(c, null)
    ensures Fields(Plug(c, T(Leaf, elm, true, Leaf)), null)
            == CtxFields(c, elm) + map[elm := Entry(null, null, Parent(c), true)]
    ensures Root(Plug(c, T(Leaf, elm, true, Leaf))) == if c.Top? then elm else Root(Plug(c, Leaf))
  {
    AttachApart(c, elm);
    PlugFields(c, Leaf);
    PlugFields(c, T(Leaf, elm, true, Leaf));
    assert Fields(T(Leaf, elm, true, Leaf), Parent(c)) == map[elm := Entry(null, null, Parent(c), true)];
  }

  /** Hanging a new red element in an empty hole. */
  lemma {:induction false} Attach(c: Ctx, elm: Node)
    requires Apart(Plug(c, Leaf)) && elm !in Nodes(Plug(c, Leaf))
    ensures Apart(Plug(c, T(Leaf, elm, true, Leaf)))
    ensures !c.Top? ==> c.n in Fields(Plug(c, Leaf), null)
    ensures Fields(Plug(c, T(Leaf, elm, true, Leaf)), null)
            == (var m1 := Fields(Plug(c, Leaf), null)[elm := Entry(null, null, Parent(c), true)];
                if c.Top? then m1 else m1[c.n := WithChild(c, m1[c.n], elm)])
    ensures Root(Plug(c, T(Leaf, elm, true, Leaf))) == if c.Top? then elm else Root(Plug(c, Leaf))
  {
    AttachApart(c, elm);
    AttachFields(c, elm);
    if !c.Top? {
      var C := CtxFields(c, null);
      Rechild(c, null, elm);
      AttachMaps(C, c.n, WithChild(c, C[c.n], elm), elm, Entry(null, null, Parent(c), true));
    }
  }
}
