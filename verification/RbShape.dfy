/**
 The mathematics of the red-black trees of uv/tree.h: shapes, contexts (a tree
 with one subtree missing), their in-order contents and the colouring rules.
 Nothing here reads the heap; RedBlackTree ties shapes to pointers.
 */
module RbShape {

  /** One tree element with its RB_ENTRY fields; `key` is what cmp compares. */
  class Node {
    const key: int
    var left: Node?
    var right: Node?
    var parent: Node?
    var red: bool

    constructor (k: int)
      ensures key == k
    {
      key := k;
      left, right, parent, red := null, null, null, false;
    }
  }

  datatype Shape = Leaf | T(l: Shape, n: Node, red: bool, r: Shape)

  /** A path from a hole up to the root: L when the hole is below a node's left link. */
  datatype Ctx = Top | L(up: Ctx, n: Node, red: bool, r: Shape) | R(up: Ctx, n: Node, red: bool, l: Shape)

  function Root(s: Shape): Node? {
    if s.Leaf? then null else s.n
  }

  function Parent(c: Ctx): Node? {
    if c.Top? then null else c.n
  }

  function Plug(c: Ctx, s: Shape): Shape {
    match c
    case Top => s
    case L(up, n, red, r) => Plug(up, T(s, n, red, r))
    case R(up, n, red, l) => Plug(up, T(l, n, red, s))
  }

  /** The same tree seen from the hole, from the node above it, and from the sibling's place. */
  lemma {:induction false} PlugUp(c: Ctx, s: Shape)
    ensures c.Top? ==> Plug(c, s) == s
    ensures c.L? ==> Plug(c, s) == Plug(c.up, T(s, c.n, c.red, c.r)) == Plug(R(c.up, c.n, c.red, s), c.r)
    ensures c.R? ==> Plug(c, s) == Plug(c.up, T(c.l, c.n, c.red, s)) == Plug(L(c.up, c.n, c.red, s), c.l)
  {
  }

  function Nodes(s: Shape): set<Node> {
    match s
    case Leaf => {}
    case T(l, n, _, r) => Nodes(l) + {n} + Nodes(r)
  }

  function CtxNodes(c: Ctx): set<Node> {
    match c
    case Top => {}
    case L(up, n, _, r) => CtxNodes(up) + {n} + Nodes(r)
    case R(up, n, _, l) => CtxNodes(up) + {n} + Nodes(l)
  }

  /** No node occurs twice. */
  predicate Apart(s: Shape) {
    match s
    case Leaf => true
    case T(l, n, _, r) =>
      n !in Nodes(l) && n !in Nodes(r) && Nodes(l) !! Nodes(r) && Apart(l) && Apart(r)
  }

  predicate CtxApart(c: Ctx) {
    match c
    case Top => true
    case L(up, n, _, r) => n !in CtxNodes(up) && n !in Nodes(r) && CtxNodes(up) !! Nodes(r) && CtxApart(up) && Apart(r)
    case R(up, n, _, l) => n !in CtxNodes(up) && n !in Nodes(l) && CtxNodes(up) !! Nodes(l) && CtxApart(up) && Apart(l)
  }

  // ---------- in-order contents ----------

  function Inorder(s: Shape): seq<Node> {
    match s
    case Leaf => []
    case T(l, n, _, r) => Inorder(l) + [n] + Inorder(r)
  }

  function Before(c: Ctx): seq<Node> {
    match c
    case Top => []
    case L(up, _, _, _) => Before(up)
    case R(up, n, _, l) => Before(up) + Inorder(l) + [n]
  }

  function After(c: Ctx): seq<Node> {
    match c
    case Top => []
    case L(up, n, _, r) => [n] + Inorder(r) + After(up)
    case R(up, _, _, _) => After(up)
  }

  predicate Sorted(q: seq<Node>) {
    forall i, j :: 0 <= i < j < |q| ==> q[i].key < q[j].key
  }

  lemma {:induction false} Regroup(b: seq<Node>, x: seq<Node>, n: Node, y: seq<Node>, a: seq<Node>)
    ensures b + (x + [n] + y) + a == b + x + ([n] + y + a)
    ensures b + (x + [n] + y) + a == (b + x + [n]) + y + a
  {
  }

  lemma {:induction false} PlugInorder(c: Ctx, s: Shape)
    ensures Inorder(Plug(c, s)) == Before(c) + Inorder(s) + After(c)
  {
    match c
    case Top =>
      assert Before(c) + Inorder(s) + After(c) == Inorder(s);
    case L(up, n, red, r) =>
      PlugInorder(up, T(s, n, red, r));
      Regroup(Before(up), Inorder(s), n, Inorder(r), After(up));
    case R(up, n, red, l) =>
      PlugInorder(up, T(l, n, red, s));
      Regroup(Before(up), Inorder(l), n, Inorder(s), After(up));
  }

  lemma {:induction false} PlugNodes(c: Ctx, s: Shape)
    ensures Nodes(Plug(c, s)) == CtxNodes(c) + Nodes(s)
  {
    match c
    case Top =>
    case L(up, n, red, r) => PlugNodes(up, T(s, n, red, r));
    case R(up, n, red, l) => PlugNodes(up, T(l, n, red, s));
  }

  lemma {:induction false} InorderNodes(s: Shape)
    ensures forall x :: x in Inorder(s) <==> x in Nodes(s)
  {
    if s.T? { InorderNodes(s.l); InorderNodes(s.r); }
  }

  // ---------- the red-black rules ----------

  predicate IsRed(s: Shape) { s.T? && s.red }

  /** Every path from the root to a leaf has h black nodes. */
  predicate Balanced(s: Shape, h: nat) {
    match s
    case Leaf => h == 0
    case T(l, _, red, r) =>
      if red then Balanced(l, h) && Balanced(r, h)
      else h > 0 && Balanced(l, h - 1) && Balanced(r, h - 1)
  }

  predicate NoRedRed(s: Shape) {
    match s
    case Leaf => true
    case T(l, _, red, r) => NoRedRed(l) && NoRedRed(r) && (red ==> !IsRed(l) && !IsRed(r))
  }

  /** The hole expects a subtree of black height h. */
  predicate CtxBalanced(c: Ctx, h: nat) {
    match c
    case Top => true
    case L(up, _, red, r) => Balanced(r, h) && CtxBalanced(up, if red then h else h + 1)
    case R(up, _, red, l) => Balanced(l, h) && CtxBalanced(up, if red then h else h + 1)
  }

  /** The context has no red-red edge, `child` telling whether the hole gets a red root. */
  predicate CtxNoRedRed(c: Ctx, child: bool) {
    match c
    case Top => true
    case L(up, _, red, r) => NoRedRed(r) && (red ==> !IsRed(r) && !child) && CtxNoRedRed(up, red)
    case R(up, _, red, l) => NoRedRed(l) && (red ==> !IsRed(l) && !child) && CtxNoRedRed(up, red)
  }

  /** The outermost node of the context, the tree's root, is black. */
  predicate CtxRootBlack(c: Ctx) {
    match c
    case Top => true
    case L(up, _, red, _) => if up.Top? then !red else CtxRootBlack(up)
    case R(up, _, red, _) => if up.Top? then !red else CtxRootBlack(up)
  }

  function Depth(c: Ctx): nat {
    if c.Top? then 0 else 1 + Depth(c.up)
  }

  ghost predicate RedBlack(s: Shape) {
    !IsRed(s) && NoRedRed(s) && exists h: nat :: Balanced(s, h)
  }

  lemma {:induction false} PlugBalanced(c: Ctx, s: Shape, h: nat) returns (hh: nat)
    requires Balanced(s, h) && CtxBalanced(c, h)
    ensures Balanced(Plug(c, s), hh)
  {
    match c
    case Top => hh := h;
    case L(up, n, red, r) => hh := PlugBalanced(up, T(s, n, red, r), if red then h else h + 1);
    case R(up, n, red, l) => hh := PlugBalanced(up, T(l, n, red, s), if red then h else h + 1);
  }

  lemma {:induction false} PlugNoRedRed(c: Ctx, s: Shape)
    requires NoRedRed(s) && CtxNoRedRed(c, IsRed(s))
    ensures NoRedRed(Plug(c, s))
  {
    match c
    case Top =>
    case L(up, n, red, r) => PlugNoRedRed(up, T(s, n, red, r));
    case R(up, n, red, l) => PlugNoRedRed(up, T(l, n, red, s));
  }

  lemma {:induction false} PlugRootBlack(c: Ctx, s: Shape)
    requires CtxRootBlack(c) && (c.Top? ==> !IsRed(s))
    ensures !IsRed(Plug(c, s))
  {
    match c
    case Top =>
    case L(up, n, red, r) => PlugRootBlack(up, T(s, n, red, r));
    case R(up, n, red, l) => PlugRootBlack(up, T(l, n, red, s));
  }

  /** A finished tree: what the fix-up loops must reach. */
  lemma {:induction false} PlugRedBlack(c: Ctx, s: Shape, h: nat)
    requires Balanced(s, h) && CtxBalanced(c, h)
    requires NoRedRed(s) && CtxNoRedRed(c, IsRed(s))
    requires CtxRootBlack(c) && (c.Top? ==> !IsRed(s))
    ensures RedBlack(Plug(c, s))
  {
    var hh := PlugBalanced(c, s, h);
    PlugNoRedRed(c, s);
    PlugRootBlack(c, s);
  }

  // ---------- taking a tree apart again ----------

  /** Going one step down from a hole in a good tree keeps both halves good. */
  lemma {:induction false} UnplugRedBlack(c: Ctx, s: Shape)
    requires RedBlack(Plug(c, s))
    ensures NoRedRed(s) && CtxNoRedRed(c, IsRed(s)) && CtxRootBlack(c) && (c.Top? ==> !IsRed(s))
    ensures exists h: nat :: Balanced(s, h) && CtxBalanced(c, h)
  {
    match c
    case Top =>
    case L(up, n, red, r) =>
      UnplugRedBlack(up, T(s, n, red, r));
      var h: nat :| Balanced(T(s, n, red, r), h) && CtxBalanced(up, h);
      assert Balanced(s, if red then h else h - 1) && CtxBalanced(c, if red then h else h - 1);
    case R(up, n, red, l) =>
      UnplugRedBlack(up, T(l, n, red, s));
      var h: nat :| Balanced(T(l, n, red, s), h) && CtxBalanced(up, h);
      assert Balanced(s, if red then h else h - 1) && CtxBalanced(c, if red then h else h - 1);
  }

  // ---------- height ----------

  function Height(s: Shape): nat {
    match s
    case Leaf => 0
    case T(l, _, _, r) => 1 + if Height(l) > Height(r) then Height(l) else Height(r)
  }

  function Size(s: Shape): nat {
    match s
    case Leaf => 0
    case T(l, _, _, r) => Size(l) + 1 + Size(r)
  }

  function Pow2(k: nat): nat {
    if k == 0 then 1 else 2 * Pow2(k - 1)
  }

  lemma {:induction false} SizeFromBlackHeight(s: Shape, h: nat)
    requires Balanced(s, h)
    ensures Size(s) + 1 >= Pow2(h)
  {
    match s
    case Leaf =>
    case T(l, _, red, r) =>
      SizeFromBlackHeight(l, if red then h else h - 1);
      SizeFromBlackHeight(r, if red then h else h - 1);
  }

  lemma {:induction false} HeightFromBlackHeight(s: Shape, h: nat)
    requires Balanced(s, h) && NoRedRed(s)
    ensures Height(s) <= 2 * h + if IsRed(s) then 1 else 0
  {
    match s
    case Leaf =>
    case T(l, _, red, r) =>
      HeightFromBlackHeight(l, if red then h else h - 1);
      HeightFromBlackHeight(r, if red then h else h - 1);
  }

  lemma {:induction false} Pow2Monotone(a: nat, b: nat)
    requires a <= b
    ensures Pow2(a) <= Pow2(b)
  {
    if a < b { Pow2Monotone(a, b - 1); }
  }

  lemma {:induction false} Pow2Double(k: nat)
    ensures Pow2(2 * k) == Pow2(k) * Pow2(k)
  {
    if k > 0 {
      Pow2Double(k - 1);
      assert Pow2(2 * k) == 4 * Pow2(2 * (k - 1)) by { assert Pow2(2 * k - 1) == 2 * Pow2(2 * k - 2); }
    }
  }

  lemma {:induction false} SquareMonotone(p: nat, q: nat)
    requires p <= q
    ensures p * p <= q * q
  {
    assert q * q - p * p == (q - p) * (q + p);
  }

  /** The documented bound: the height is at most 2 lg(n + 1), that is,
      2^height is at most (n + 1)^2. */
  lemma {:induction false} HeightBound(s: Shape)
    requires RedBlack(s)
    ensures Pow2(Height(s)) <= (Size(s) + 1) * (Size(s) + 1)
  {
    var h: nat :| Balanced(s, h);
    HeightFromBlackHeight(s, h);
    SizeFromBlackHeight(s, h);
    Pow2Monotone(Height(s), 2 * h);
    Pow2Double(h);
    SquareMonotone(Pow2(h), Size(s) + 1);
  }

  // ---------- the insertion fix-up ----------

  /** c has no red-red edge of its own; its hole may still clash with its parent. */
  predicate CtxInside(c: Ctx) {
    match c
    case Top => true
    case L(up, _, red, r) => NoRedRed(r) && (red ==> !IsRed(r)) && CtxNoRedRed(up, red)
    case R(up, _, red, l) => NoRedRed(l) && (red ==> !IsRed(l)) && CtxNoRedRed(up, red)
  }

  /** RB_INSERT_COLOR's loop invariant: the only possible fault is the edge
      between the red element elm and its parent. */
  predicate Inserting(c: Ctx, l: Shape, elm: Node, r: Shape, h: nat) {
    && Balanced(T(l, elm, true, r), h) && NoRedRed(T(l, elm, true, r))
    && CtxBalanced(c, h) && CtxInside(c) && CtxRootBlack(c)
  }

  ghost predicate Fixing(c: Ctx, l: Shape, elm: Node, r: Shape) {
    exists h: nat :: Inserting(c, l, elm, r, h)
  }

  predicate ParentRed(c: Ctx) { !c.Top? && c.red }

  /** A red parent is not the root, so there is a black grandparent. */
  lemma {:induction false} FixingGrandparent(c: Ctx, l: Shape, elm: Node, r: Shape)
    requires Fixing(c, l, elm, r) && ParentRed(c)
    ensures !c.up.Top? && !c.up.red
  {
  }

  lemma {:induction false} RecolouredLeft(c: Ctx, l: Shape, elm: Node, r: Shape)
    requires Fixing(c, l, elm, r) && ParentRed(c) && c.up.L? && IsRed(c.up.r)
    ensures !c.up.red
    ensures var s := T(l, elm, true, r);
            var p := if c.L? then T(s, c.n, false, c.r) else T(c.l, c.n, false, s);
            var u := T(c.up.r.l, c.up.r.n, false, c.up.r.r);
            Fixing(c.up.up, p, c.up.n, u)
  {
    var h: nat :| Inserting(c, l, elm, r, h);
    assert CtxBalanced(c.up, h) && CtxNoRedRed(c.up, true) && CtxRootBlack(c.up);
    assert Balanced(c.up.r, h) && CtxBalanced(c.up.up, h + 1) && CtxNoRedRed(c.up.up, false) && CtxRootBlack(c.up.up);
    var s := T(l, elm, true, r);
    var p := if c.L? then T(s, c.n, false, c.r) else T(c.l, c.n, false, s);
    var u := T(c.up.r.l, c.up.r.n, false, c.up.r.r);
    assert Balanced(p, h + 1) && NoRedRed(p) && !IsRed(p) && Balanced(u, h + 1) && NoRedRed(u) && !IsRed(u);
    assert CtxInside(c.up.up);
    assert Inserting(c.up.up, p, c.up.n, u, h + 1);
  }

  /** elm is an outer grandchild: after the rotation elm has a black parent. */
  lemma {:induction false} OuterLeft(c: Ctx, l: Shape, elm: Node, r: Shape)
    requires Fixing(c, l, elm, r) && ParentRed(c) && c.L? && c.up.L? && !IsRed(c.up.r)
    ensures !c.up.red
    ensures Fixing(L(c.up.up, c.n, false, T(c.r, c.up.n, true, c.up.r)), l, elm, r)
  {
    var h: nat :| Inserting(c, l, elm, r, h);
    assert CtxBalanced(c.up, h) && CtxNoRedRed(c.up, true) && CtxRootBlack(c.up);
    assert Balanced(c.up.r, h) && CtxBalanced(c.up.up, h + 1) && CtxNoRedRed(c.up.up, false) && CtxRootBlack(c.up.up);
    assert Inserting(L(c.up.up, c.n, false, T(c.r, c.up.n, true, c.up.r)), l, elm, r, h);
  }

  /** elm is an inner grandchild: both rotations together. */
  lemma {:induction false} InnerLeft(c: Ctx, l: Shape, elm: Node, r: Shape)
    requires Fixing(c, l, elm, r) && ParentRed(c) && c.R? && c.up.L? && !IsRed(c.up.r)
    ensures !c.up.red
    ensures Fixing(L(c.up.up, elm, false, T(r, c.up.n, true, c.up.r)), c.l, c.n, l)
  {
    var h: nat :| Inserting(c, l, elm, r, h);
    assert CtxBalanced(c.up, h) && CtxNoRedRed(c.up, true) && CtxRootBlack(c.up);
    assert Balanced(c.up.r, h) && CtxBalanced(c.up.up, h + 1) && CtxNoRedRed(c.up.up, false) && CtxRootBlack(c.up.up);
    assert Inserting(L(c.up.up, elm, false, T(r, c.up.n, true, c.up.r)), c.l, c.n, l, h);
  }

  lemma {:induction false} RecolouredRight(c: Ctx, l: Shape, elm: Node, r: Shape)
    requires Fixing(c, l, elm, r) && ParentRed(c) && c.up.R? && IsRed(c.up.l)
    ensures !c.up.red
    ensures var s := T(l, elm, true, r);
            var p := if c.L? then T(s, c.n, false, c.r) else T(c.l, c.n, false, s);
            var u := T(c.up.l.l, c.up.l.n, false, c.up.l.r);
            Fixing(c.up.up, u, c.up.n, p)
  {
    var h: nat :| Inserting(c, l, elm, r, h);
    assert CtxBalanced(c.up, h) && CtxNoRedRed(c.up, true) && CtxRootBlack(c.up);
    assert Balanced(c.up.l, h) && CtxBalanced(c.up.up, h + 1) && CtxNoRedRed(c.up.up, false) && CtxRootBlack(c.up.up);
    var s := T(l, elm, true, r);
    var p := if c.L? then T(s, c.n, false, c.r) else T(c.l, c.n, false, s);
    var u := T(c.up.l.l, c.up.l.n, false, c.up.l.r);
    assert Balanced(p, h + 1) && NoRedRed(p) && !IsRed(p) && Balanced(u, h + 1) && NoRedRed(u) && !IsRed(u);
    assert CtxInside(c.up.up);
    assert Inserting(c.up.up, u, c.up.n, p, h + 1);
  }

  /** elm is an outer grandchild: after the rotation elm has a black parent. */
  lemma {:induction false} OuterRight(c: Ctx, l: Shape, elm: Node, r: Shape)
    requires Fixing(c, l, elm, r) && ParentRed(c) && c.R? && c.up.R? && !IsRed(c.up.l)
    ensures !c.up.red
    ensures Fixing(R(c.up.up, c.n, false, T(c.up.l, c.up.n, true, c.l)), l, elm, r)
  {
    var h: nat :| Inserting(c, l, elm, r, h);
    assert CtxBalanced(c.up, h) && CtxNoRedRed(c.up, true) && CtxRootBlack(c.up);
    assert Balanced(c.up.l, h) && CtxBalanced(c.up.up, h + 1) && CtxNoRedRed(c.up.up, false) && CtxRootBlack(c.up.up);
    assert Inserting(R(c.up.up, c.n, false, T(c.up.l, c.up.n, true, c.l)), l, elm, r, h);
  }

  /** elm is an inner grandchild: both rotations together. */
  lemma {:induction false} InnerRight(c: Ctx, l: Shape, elm: Node, r: Shape)
    requires Fixing(c, l, elm, r) && ParentRed(c) && c.L? && c.up.R? && !IsRed(c.up.l)
    ensures !c.up.red
    ensures Fixing(R(c.up.up, elm, false, T(c.up.l, c.up.n, true, l)), r, c.n, c.r)
  {
    var h: nat :| Inserting(c, l, elm, r, h);
    assert CtxBalanced(c.up, h) && CtxNoRedRed(c.up, true) && CtxRootBlack(c.up);
    assert Balanced(c.up.l, h) && CtxBalanced(c.up.up, h + 1) && CtxNoRedRed(c.up.up, false) && CtxRootBlack(c.up.up);
    assert Inserting(R(c.up.up, elm, false, T(c.up.l, c.up.n, true, l)), r, c.n, c.r, h);
  }

  /** When the loop stops, blackening the root finishes the tree. */
  lemma {:induction false} FixingDone(c: Ctx, l: Shape, elm: Node, r: Shape)
    requires Fixing(c, l, elm, r) && !ParentRed(c)
    ensures var t := Plug(c, T(l, elm, true, r));
            t.T? && RedBlack(T(t.l, t.n, false, t.r))
  {
    var h: nat :| Inserting(c, l, elm, r, h);
    if c.Top? {
      assert Balanced(T(l, elm, false, r), h + 1);
    } else {
      PlugRedBlack(c, T(l, elm, true, r), h);
      PlugNodes(c, T(l, elm, true, r));
      var t := Plug(c, T(l, elm, true, r));
      assert elm in Nodes(t);
      assert T(t.l, t.n, false, t.r) == t;
    }
  }

  /** A fresh red leaf in a good tree breaks at most the edge above it. */
  lemma {:induction false} FixingStart(c: Ctx, elm: Node)
    requires RedBlack(Plug(c, Leaf))
    ensures Fixing(c, Leaf, elm, Leaf)
  {
    UnplugRedBlack(c, Leaf);
    var h: nat :| Balanced(Leaf, h) && CtxBalanced(c, h);
    assert Inserting(c, Leaf, elm, Leaf, h);
  }

  // ---------- searching ----------

  predicate AllBelow(q: seq<Node>, k: int) {
    forall i :: 0 <= i < |q| ==> q[i].key < k
  }

  predicate AllAbove(q: seq<Node>, k: int) {
    forall i :: 0 <= i < |q| ==> k < q[i].key
  }

  /** k belongs in the hole of c: everything left of it is smaller, everything right of it larger. */
  predicate Between(c: Ctx, k: int) {
    AllBelow(Before(c), k) && AllAbove(After(c), k)
  }

  lemma {:induction false} SortedSplit(b: seq<Node>, x: seq<Node>, n: Node, y: seq<Node>, a: seq<Node>)
    requires Sorted(b + (x + [n] + y) + a)
    ensures AllBelow(x, n.key) && AllAbove(y, n.key) && AllBelow(b, n.key) && AllAbove(a, n.key)
  {
    var q := b + (x + [n] + y) + a;
    var m := |b| + |x|;
    assert q[m] == n;
    forall i | 0 <= i < |x| ensures x[i].key < n.key { assert q[|b| + i] == x[i]; }
    forall i | 0 <= i < |b| ensures b[i].key < n.key { assert q[i] == b[i]; }
    forall i | 0 <= i < |y| ensures n.key < y[i].key { assert q[m + 1 + i] == y[i]; }
    forall i | 0 <= i < |a| ensures n.key < a[i].key { assert q[m + 1 + |y| + i] == a[i]; }
  }

  /** One step of a search that went left or right at s's root. */
  lemma {:induction false} SearchStep(c: Ctx, s: Shape, k: int)
    requires s.T? && Sorted(Inorder(Plug(c, s))) && Between(c, k)
    ensures k < s.n.key ==> Between(L(c, s.n, s.red, s.r), k)
    ensures k > s.n.key ==> Between(R(c, s.n, s.red, s.l), k)
  {
    PlugInorder(c, s);
    SortedSplit(Before(c), Inorder(s.l), s.n, Inorder(s.r), After(c));
  }

  /** Putting a key in its place keeps the order. */
  lemma {:induction false} SortedInsert(b: seq<Node>, n: Node, a: seq<Node>)
    requires Sorted(b + a) && AllBelow(b, n.key) && AllAbove(a, n.key)
    ensures Sorted(b + [n] + a)
  {
    var q := b + [n] + a;
    forall i, j | 0 <= i < j < |q|
      ensures q[i].key < q[j].key
    {
      if j < |b| { assert q[i] == (b + a)[i] && q[j] == (b + a)[j]; }
      else if i > |b| { assert q[i] == (b + a)[i - 1] && q[j] == (b + a)[j - 1]; }
      else if i < |b| && j > |b| { assert q[i] == (b + a)[i] && q[j] == (b + a)[j - 1]; }
    }
  }

  /** q' is q with n added somewhere. */
  predicate Inserted(q: seq<Node>, n: Node, q': seq<Node>) {
    exists i :: 0 <= i <= |q| && q' == q[..i] + [n] + q[i..]
  }

  /** The contents after hanging elm in a hole where its key fits. */
  lemma {:induction false} InsertedInorder(c: Ctx, elm: Node)
    requires Sorted(Inorder(Plug(c, Leaf))) && Between(c, elm.key)
    ensures var q := Inorder(Plug(c, Leaf)); var q' := Inorder(Plug(c, T(Leaf, elm, true, Leaf)));
            Sorted(q') && Inserted(q, elm, q')
  {
    PlugInorder(c, Leaf);
    PlugInorder(c, T(Leaf, elm, true, Leaf));
    var b, a := Before(c), After(c);
    assert b + [] + a == b + a;
    assert [] + [elm] + [] == [elm];
    SortedInsert(b, elm, a);
    assert (b + a)[..|b|] == b && (b + a)[|b|..] == a;
  }

  /** In an ordered tree an element has one position. */
  lemma {:induction false} SamePosition(q: seq<Node>, i: nat, j: nat)
    requires Sorted(q) && i < |q| && j < |q| && q[i] == q[j]
    ensures i == j
  {
  }

  /** What follows position |b| + |x| in b + (x + [n] + y) + a. */
  lemma {:induction false} Following(b: seq<Node>, x: seq<Node>, n: Node, y: seq<Node>, a: seq<Node>)
    ensures var q := b + (x + [n] + y) + a; var i := |b| + |x|;
            && i < |q| && q[i] == n
            && (i + 1 < |q| <==> y != [] || a != [])
            && (y != [] ==> q[i + 1] == y[0])
            && (y == [] && a != [] ==> q[i + 1] == a[0])
  {
  }

  function First(q: seq<Node>): Node? {
    if q == [] then null else q[0]
  }

  lemma {:induction false} InorderNonempty(s: Shape)
    ensures s.T? <==> Inorder(s) != []
    ensures s.T? && s.l.T? ==> Inorder(s)[0] == Inorder(s.l)[0]
    ensures s.T? && s.l.Leaf? ==> Inorder(s)[0] == s.n
    ensures s.T? && s.r.T? ==> Inorder(s)[|Inorder(s)| - 1] == Inorder(s.r)[|Inorder(s.r)| - 1]
    ensures s.T? && s.r.Leaf? ==> Inorder(s)[|Inorder(s)| - 1] == s.n
  {
    if s.T? {
      if s.l.T? { assert Inorder(s.l) != []; }
      if s.r.T? { assert Inorder(s.r) != []; }
    }
  }

  // ---------- where a search ends ----------

  lemma {:induction false} BetweenTop(k: int)
    ensures Between(Top, k)
  {
  }

  /** An empty hole where k fits: k is nowhere in the tree. */
  lemma {:induction false} NotBetween(c: Ctx, k: int)
    requires Between(c, k)
    ensures forall i :: 0 <= i < |Before(c) + [] + After(c)| ==> (Before(c) + [] + After(c))[i].key != k
  {
    assert Before(c) + [] == Before(c);
  }

  lemma {:induction false} NotFoundAt(c: Ctx, k: int)
    requires Between(c, k)
    ensures var q := Before(c) + [] + After(c); var res := First(After(c));
            && (res == null ==> AllBelow(q, k))
            && (res != null ==> |Before(c)| < |q| && q[|Before(c)|] == res && res.key >= k && AllBelow(q[..|Before(c)|], k))
  {
    assert Before(c) + [] == Before(c);
    assert (Before(c) + After(c))[..|Before(c)|] == Before(c);
  }

  lemma {:induction false} FoundAt(c: Ctx, s: Shape, k: int)
    requires Between(c, k) && s.T? && s.n.key == k && Sorted(Before(c) + Inorder(s) + After(c))
    ensures var q := Before(c) + Inorder(s) + After(c); var i := |Before(c)| + |Inorder(s.l)|;
            i < |q| && q[i] == s.n && AllBelow(q[..i], k)
  {
    var b, x, y, a := Before(c), Inorder(s.l), Inorder(s.r), After(c);
    SortedSplit(b, x, s.n, y, a);
    var q := b + (x + [s.n] + y) + a;
    assert q[..|b| + |x|] == b + x;
  }
}
