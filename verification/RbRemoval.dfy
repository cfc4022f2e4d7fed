/**
 Removing a node from a red-black tree, on shapes and on field maps: splicing
 out a node with one child, putting the successor in a node's place, and the
 invariant and cases of the fix-up loop.
 */
module RbRemoval {
  import opened RbShape
  import opened RbFields

  // ---------- definitions, one step at a time ----------

  lemma {:induction false} NodeParts(l: Shape, n: Node, red: bool, r: Shape)
    ensures Nodes(T(l, n, red, r)) == Nodes(l) + {n} + Nodes(r)
    ensures Apart(T(l, n, red, r)) <==>
              n !in Nodes(l) && n !in Nodes(r) && Nodes(l) !! Nodes(r) && Apart(l) && Apart(r)
  {
  }

  lemma {:induction false} FieldParts(l: Shape, n: Node, red: bool, r: Shape, p: Node?)
    ensures Fields(T(l, n, red, r), p) == (Fields(l, n) + Fields(r, n))[n := Entry(Root(l), Root(r), p, red)]
  {
  }

  lemma {:induction false} RootIn(s: Shape)
    ensures s.T? ==> s.n in Nodes(s)
  {
  }

  lemma {:induction false} ParentIn(c: Ctx)
    ensures !c.Top? ==> c.n in CtxNodes(c)
  {
  }

  // ---------- splicing ----------

  /** The parts of a tree around a node n with one child at most. */
  lemma {:induction false} SpliceParts(c: Ctx, l: Shape, n: Node, red: bool, r: Shape, k: Shape)
    requires Apart(Plug(c, T(l, n, red, r)))
    requires (l.Leaf? && k == r) || (r.Leaf? && k == l)
    ensures Apart(Plug(c, k)) && n !in Nodes(Plug(c, k))
    ensures CtxApart(c) && CtxNodes(c) !! Nodes(k) && n !in CtxNodes(c) && n !in Nodes(k)
    ensures Fields(Plug(c, T(l, n, red, r)), null)
            == CtxFields(c, n) + Fields(k, n)[n := Entry(Root(l), Root(r), Parent(c), red)]
    ensures Fields(Plug(c, k), null) == CtxFields(c, Root(k)) + Fields(k, Parent(c))
    ensures Root(Plug(c, k)) == if c.Top? then Root(k) else Root(Plug(c, T(l, n, red, r)))
  {
    hide Plug, CtxFields, CtxNodes, CtxApart;
    var s := T(l, n, red, r);
    NodeParts(l, n, red, r);
    FieldParts(l, n, red, r, Parent(c));
    assert Fields(l, n) + Fields(r, n) == Fields(k, n);
    PlugApart(c, s);
    PlugApart(c, k);
    PlugNodes(c, k);
    PlugFields(c, s);
    PlugFields(c, k);
    OutermostNonNull(c, Root(k), n);
  }

  lemma {:induction false} OutermostNonNull(c: Ctx, x: Node?, y: Node?)
    ensures c.Top? || Outermost(c, x) == Outermost(c, y)
  {
  }

  /** The parent's entry in a context. */
  lemma {:induction false} CtxEntry(c: Ctx, x: Node)
    requires CtxApart(c) && x !in CtxNodes(c) && !c.Top?
    ensures c.n in CtxFields(c, x) && (if c.L? then CtxFields(c, x)[c.n].left == x else CtxFields(c, x)[c.n].left != x)
  {
    if c.R? { assert c.l.T? ==> c.l.n in Nodes(c.l); }
  }

  /** Dropping n, whose only subtree k takes its place. */
  lemma {:induction false} Splice(c: Ctx, l: Shape, n: Node, red: bool, r: Shape, k: Shape)
    requires Apart(Plug(c, T(l, n, red, r)))
    requires (l.Leaf? && k == r) || (r.Leaf? && k == l)
    ensures Apart(Plug(c, k)) && n !in Nodes(Plug(c, k))
    ensures var m := Fields(Plug(c, T(l, n, red, r)), null);
            && n in m && m[n] == Entry(Root(l), Root(r), Parent(c), red)
            && (k.T? ==> k.n in m && k.n != n) && (Parent(c) != null ==> Parent(c) in m && Parent(c) != n)
            && Fields(Plug(c, k), null) == PutChild(PutParent(m, Root(k), Parent(c)), Parent(c), n, Root(k)) - {n}
    ensures Root(Plug(c, k)) == if c.Top? then Root(k) else Root(Plug(c, T(l, n, red, r)))
  {
    hide Plug, Fields, CtxFields, Nodes, CtxNodes, Apart, CtxApart;
    SpliceParts(c, l, n, red, r, k);
    if !c.Top? { CtxEntry(c, n); }
    Reparent(k, n, Parent(c));
    Rechild(c, n, Root(k));
    SpliceMaps(c, CtxFields(c, n), CtxFields(c, Root(k)), Fields(k, n), Fields(k, Parent(c)),
               n, Entry(Root(l), Root(r), Parent(c), red), Root(k));
  }

  lemma {:induction false} SpliceMaps(c: Ctx, C: map<Node, Entry>, C': map<Node, Entry>, K: map<Node, Entry>, K': map<Node, Entry>,
                   n: Node, e: Entry, x: Node?)
    requires C.Keys !! K.Keys && n !in C && n !in K
    requires !c.Top? ==> c.n in C && (if c.L? then C[c.n].left == n else C[c.n].left != n)
                         && C' == C[c.n := WithChild(c, C[c.n], x)]
    requires c.Top? ==> C' == C
    requires if x == null then K' == K else x in K && K' == K[x := K[x].(parent := Parent(c))]
    ensures var m := C + K[n := e];
            && (x != null ==> x in m) && (Parent(c) != null ==> Parent(c) in m)
            && C' + K' == PutChild(PutParent(m, x, Parent(c)), Parent(c), n, x) - {n}
  {
    var m := C + K[n := e];
    var w := PutChild(PutParent(m, x, Parent(c)), Parent(c), n, x) - {n};
    assert w.Keys == (C' + K').Keys;
    forall y | y in w
      ensures w[y] == (C' + K')[y]
    {
    }
  }

  /** A whole tree's fields at one node, by where the node is. */
  lemma {:induction false} FieldsAt(c: Ctx, l: Shape, n: Node, red: bool, r: Shape, z: Node)
    requires Apart(Plug(c, T(l, n, red, r)))
    ensures var m := Fields(Plug(c, T(l, n, red, r)), null);
            && (z in m <==> z in CtxNodes(c) || z in Nodes(l) || z in Nodes(r) || z == n)
            && (z in CtxNodes(c) ==> m[z] == CtxFields(c, n)[z] && z != n && z !in Nodes(l) && z !in Nodes(r))
            && (z in Nodes(l) ==> m[z] == Fields(l, n)[z] && z != n && z !in Nodes(r))
            && (z in Nodes(r) ==> m[z] == Fields(r, n)[z] && z != n)
            && (z == n ==> m[z] == Entry(Root(l), Root(r), Parent(c), red))
  {
    hide Plug, Fields, CtxFields, Nodes, CtxNodes, Apart, CtxApart;
    var s := T(l, n, red, r);
    NodeParts(l, n, red, r);
    FieldParts(l, n, red, r, Parent(c));
    PlugApart(c, s);
    PlugFields(c, s);
  }

  lemma {:induction false} SubstituteApart(c: Ctx, l: Shape, old_: Node, red: bool, r: Shape, n: Node)
    requires Apart(Plug(c, T(l, old_, red, r))) && n !in Nodes(Plug(c, T(l, old_, red, r)))
    ensures Apart(Plug(c, T(l, n, red, r))) && old_ !in Nodes(Plug(c, T(l, n, red, r)))
    ensures Nodes(Plug(c, T(l, n, red, r))) == Nodes(Plug(c, T(l, old_, red, r))) - {old_} + {n}
    ensures Root(Plug(c, T(l, n, red, r))) == if c.Top? then n else Root(Plug(c, T(l, old_, red, r)))
  {
    hide Plug, Fields, CtxFields, Nodes, CtxNodes, Apart, CtxApart;
    var s, s' := T(l, old_, red, r), T(l, n, red, r);
    NodeParts(l, old_, red, r);
    NodeParts(l, n, red, r);
    OutermostNonNull(c, old_, n);
    PlugApart(c, s);
    PlugNodes(c, s);
    PlugApart(c, s');
    PlugNodes(c, s');
    PlugFields(c, s);
    PlugFields(c, s');
  }

  lemma {:induction false} DistinctAround(c: Ctx, l: Shape, n: Node, red: bool, r: Shape)
    requires CtxApart(c) && Apart(T(l, n, red, r)) && CtxNodes(c) !! Nodes(T(l, n, red, r)) && l.T?
    ensures Distinct(n, l.n, Root(r), Parent(c))
  {
    hide Plug, Fields, CtxFields, Nodes, CtxNodes, Apart, CtxApart;
    NodeParts(l, n, red, r);
    RootIn(l);
    RootIn(r);
    ParentIn(c);
  }

  /** The entry of z once n has taken old's place: x and y are the roots of
      old's subtrees and p its parent. */
  function Substituted(c: Ctx, m: map<Node, Entry>, old_: Node, n: Node, x: Node?, y: Node?, z: Node): Entry
    requires old_ in m && (z == n || z in m)
  {
    if z == n then m[old_]
    else if z == x || z == y then m[z].(parent := n)
    else if z == Parent(c) then WithChild(c, m[z], n)
    else m[z]
  }

  lemma {:induction false} SubstituteAt(c: Ctx, l: Shape, old_: Node, red: bool, r: Shape, n: Node, z: Node)
    requires Apart(Plug(c, T(l, old_, red, r))) && n !in Nodes(Plug(c, T(l, old_, red, r)))
    requires Apart(Plug(c, T(l, n, red, r))) && z in Fields(Plug(c, T(l, n, red, r)), null)
    ensures var m := Fields(Plug(c, T(l, old_, red, r)), null);
            && old_ in m && (z == n || z in m)
            && Fields(Plug(c, T(l, n, red, r)), null)[z] == Substituted(c, m, old_, n, Root(l), Root(r), z)
  {
    hide Plug, Fields, CtxFields, Nodes, CtxNodes, Apart, CtxApart;
    RootIn(l);
    RootIn(r);
    ParentIn(c);
    FieldsAt(c, l, old_, red, r, z);
    FieldsAt(c, l, old_, red, r, old_);
    FieldsAt(c, l, n, red, r, z);
    Reparent(l, old_, n);
    Reparent(r, old_, n);
    Rechild(c, old_, n);
  }

  /** What the fields say around a node with a left child. */
  lemma {:induction false} SubstituteEntries(c: Ctx, l: Shape, old_: Node, red: bool, r: Shape)
    requires Apart(Plug(c, T(l, old_, red, r))) && l.T?
    ensures var m := Fields(Plug(c, T(l, old_, red, r)), null);
            && old_ in m && m[old_] == Entry(Root(l), Root(r), Parent(c), red)
            && l.n in m && (r.T? ==> r.n in m) && (!c.Top? ==> c.n in m && (c.L? <==> m[c.n].left == old_))
            && Distinct(old_, l.n, Root(r), Parent(c))
  {
    hide Plug, Fields, CtxFields, Nodes, CtxNodes, Apart, CtxApart;
    if !c.Top? { LookUp(c, T(l, old_, red, r)); }
    PlugNodes(c, T(l, old_, red, r));
    NodeParts(l, old_, red, r);
    RootIn(l);
    RootIn(r);
    PlugApart(c, T(l, old_, red, r));
    DistinctAround(c, l, old_, red, r);
    Look(c, T(l, old_, red, r));
  }

  /** Four nodes, the last two possibly NULL, that are not the same. */
  predicate Distinct(a: Node, b: Node, x: Node?, y: Node?) {
    a != b && (x != null ==> x != a && x != b && x != y) && (y != null ==> y != a && y != b)
  }

  /** n takes the place of old in the tree. */
  lemma {:induction false} Substitute(c: Ctx, l: Shape, old_: Node, red: bool, r: Shape, n: Node)
    requires Apart(Plug(c, T(l, old_, red, r))) && n !in Nodes(Plug(c, T(l, old_, red, r))) && l.T?
    ensures Apart(Plug(c, T(l, n, red, r))) && old_ !in Nodes(Plug(c, T(l, n, red, r)))
    ensures var m := Fields(Plug(c, T(l, old_, red, r)), null);
            && old_ in m && l.n in m && (r.T? ==> r.n in m) && (Parent(c) != null ==> Parent(c) in m)
            && Fields(Plug(c, T(l, n, red, r)), null)
               == PutParent(PutParent(PutChild(m[n := m[old_]], Parent(c), old_, n), Root(l), n), Root(r), n) - {old_}
    ensures Root(Plug(c, T(l, n, red, r))) == if c.Top? then n else Root(Plug(c, T(l, old_, red, r)))
  {
    hide Plug, Fields, CtxFields, Nodes, CtxNodes, Apart, CtxApart;
    SubstituteApart(c, l, old_, red, r, n);
    SubstituteEntries(c, l, old_, red, r);
    var m := Fields(Plug(c, T(l, old_, red, r)), null);
    var k := Fields(Plug(c, T(l, n, red, r)), null);
    forall z | z in k
      ensures z == n || z in m
      ensures k[z] == Substituted(c, m, old_, n, Root(l), Root(r), z)
    {
      SubstituteAt(c, l, old_, red, r, n, z);
    }
    SubstituteMaps(c, m, k, old_, n, l.n, Root(r));
  }

  lemma {:induction false} SubstituteMaps(c: Ctx, m: map<Node, Entry>, k: map<Node, Entry>, old_: Node, n: Node, x: Node, y: Node?)
    requires old_ in m && n !in m && k.Keys == m.Keys - {old_} + {n}
    requires x in m && (y != null ==> y in m) && (Parent(c) != null ==> Parent(c) in m)
    requires Distinct(old_, x, y, Parent(c))
    requires !c.Top? ==> (c.L? <==> m[c.n].left == old_)
    requires forall z :: z in k ==> k[z] == Substituted(c, m, old_, n, x, y, z)
    ensures k == PutParent(PutParent(PutChild(m[n := m[old_]], Parent(c), old_, n), x, n), y, n) - {old_}
  {
  }

  // ---------- contexts inside contexts ----------

  /** c2, which ends at a hole of c. */
  function Extend(c2: Ctx, c: Ctx): Ctx {
    match c2
    case Top => c
    case L(up, n, red, r) => L(Extend(up, c), n, red, r)
    case R(up, n, red, l) => R(Extend(up, c), n, red, l)
  }

  lemma {:induction false} ExtendPlug(c2: Ctx, c: Ctx, s: Shape)
    ensures Plug(Extend(c2, c), s) == Plug(c, Plug(c2, s))
  {
    match c2
    case Top =>
    case L(up, n, red, r) => ExtendPlug(up, c, T(s, n, red, r));
    case R(up, n, red, l) => ExtendPlug(up, c, T(l, n, red, s));
  }

  /** The parent at the inner end is the outer context's node exactly when c2 is empty. */
  lemma {:induction false} ExtendParent(c2: Ctx, b: Ctx, b': Ctx)
    ensures Parent(Extend(c2, b)) == if c2.Top? then Parent(b) else c2.n
    ensures Parent(Extend(c2, b')) == if c2.Top? then Parent(b') else c2.n
  {
  }

  lemma {:induction false} ExtendNode(c2: Ctx, b: Ctx)
    requires !b.Top?
    ensures b.n in CtxNodes(Extend(c2, b))
  {
    if !c2.Top? { ExtendNode(c2.up, b); }
  }

  lemma {:induction false} ExtendApart(c2: Ctx, b: Ctx, s: Shape)
    requires Apart(Plug(Extend(c2, b), s)) && !b.Top? && !c2.Top?
    ensures c2.n != b.n
  {
    PlugApart(Extend(c2, b), s);
    ExtendNode(c2.up, b);
  }

  /** A path that only went left. */
  predicate LeftSpine(c: Ctx) {
    c.Top? || (c.L? && LeftSpine(c.up))
  }

  lemma {:induction false} LeftSpineBefore(c: Ctx)
    requires LeftSpine(c)
    ensures Before(c) == []
  {
    if !c.Top? { LeftSpineBefore(c.up); }
  }

  /** Which element sits at the outer end of c2 does not matter to the colours. */
  lemma {:induction false} Renamed(c2: Ctx, c: Ctx, x: Node, y: Node, red: bool, l: Shape, h: nat, child: bool)
    ensures CtxBalanced(Extend(c2, R(c, x, red, l)), h) == CtxBalanced(Extend(c2, R(c, y, red, l)), h)
    ensures CtxNoRedRed(Extend(c2, R(c, x, red, l)), child) == CtxNoRedRed(Extend(c2, R(c, y, red, l)), child)
    ensures CtxRootBlack(Extend(c2, R(c, x, red, l))) == CtxRootBlack(Extend(c2, R(c, y, red, l)))
  {
    if !c2.Top? {
      Renamed(c2.up, c, x, y, red, l, if c2.red then h else h + 1, c2.red);
    }
  }

  // ---------- locating a node ----------

  lemma {:induction false} Locate(c: Ctx, s: Shape, n: Node) returns (cn: Ctx, sn: Shape)
    requires n in Nodes(s)
    ensures sn.T? && sn.n == n && Plug(cn, sn) == Plug(c, s)
    decreases s
  {
    if s.n == n {
      cn, sn := c, s;
    } else if n in Nodes(s.l) {
      cn, sn := Locate(L(c, s.n, s.red, s.r), s.l, n);
    } else {
      cn, sn := Locate(R(c, s.n, s.red, s.l), s.r, n);
    }
  }

  // ---------- the removal fix-up ----------

  predicate NoRedBelow(s: Shape) {
    s.T? ==> NoRedRed(s.l) && NoRedRed(s.r)
  }

  /** RB_REMOVE_COLOR's loop invariant: the subtree at the hole is one black
      node short, and nothing else is wrong except possibly that it has a red root. */
  ghost predicate Short(c: Ctx, s: Shape) {
    && NoRedBelow(s) && CtxNoRedRed(c, false) && CtxRootBlack(c)
    && exists h: nat :: Balanced(s, h) && CtxBalanced(c, h + 1)
  }

  function Blacken(s: Shape): Shape {
    if s.T? then T(s.l, s.n, false, s.r) else s
  }

  /** Where the loop may stop: at a red node, or at the top. */
  lemma {:induction false} ShortDone(c: Ctx, s: Shape)
    requires Short(c, s) && (IsRed(s) || c.Top?)
    ensures RedBlack(Plug(c, Blacken(s)))
  {
    var h: nat :| Balanced(s, h) && CtxBalanced(c, h + 1);
    if IsRed(s) {
      PlugRedBlack(c, Blacken(s), h + 1);
    } else {
      PlugRedBlack(Top, s, h);
    }
  }

  lemma {:induction false} ShortStartBlack(c: Ctx, s: Shape, k: Shape)
    requires RedBlack(Plug(c, s)) && s.T? && !s.red
    requires (s.l.Leaf? && k == s.r) || (s.r.Leaf? && k == s.l)
    ensures Short(c, k)
  {
    hide Plug;
    UnplugRedBlack(c, s);
    var h: nat :| Balanced(s, h) && CtxBalanced(c, h);
    assert Balanced(k, h - 1) && NoRedRed(k);
    assert CtxBalanced(c, h - 1 + 1);
  }

  lemma {:induction false} ShortStartRed(c: Ctx, s: Shape, k: Shape)
    requires RedBlack(Plug(c, s)) && s.T? && s.red
    requires (s.l.Leaf? && k == s.r) || (s.r.Leaf? && k == s.l)
    ensures RedBlack(Plug(c, k))
  {
    hide Plug, RedBlack;
    UnplugRedBlack(c, s);
    var h: nat :| Balanced(s, h) && CtxBalanced(c, h);
    CtxNoRedRedAny(c, true);
    PlugRedBlack(c, k, h);
  }

  lemma {:induction false} CtxNoRedRedAny(c: Ctx, child: bool)
    requires CtxNoRedRed(c, child)
    ensures CtxNoRedRed(c, false)
  {
  }

  lemma {:induction false} ShortSibling(c: Ctx, s: Shape)
    requires Short(c, s) && !c.Top?
    ensures if c.L? then c.r.T? else c.l.T?
  {
  }

  /** A red sibling: rotate it above the parent; the new sibling is black. */
  lemma {:induction false} RedSiblingLeft(c: Ctx, s: Shape)
    requires Short(c, s) && !IsRed(s) && c.L? && IsRed(c.r)
    ensures !c.red && !IsRed(c.r.l)
    ensures Short(L(L(c.up, c.r.n, false, c.r.r), c.n, true, c.r.l), s)
  {
    var h: nat :| Balanced(s, h) && CtxBalanced(c, h + 1);
    assert CtxBalanced(c.up, h + 2) && CtxNoRedRed(c.up, false) && Balanced(c.r, h + 1);
    assert CtxBalanced(L(c.up, c.r.n, false, c.r.r), h + 1);
    assert CtxRootBlack(L(c.up, c.r.n, false, c.r.r));
  }

  /** A black sibling without red children: redden it; the parent's place is now short. */
  lemma {:induction false} BlackNephewsLeft(c: Ctx, s: Shape)
    requires Short(c, s) && !IsRed(s) && c.L? && c.r.T? && !c.r.red && !IsRed(c.r.l) && !IsRed(c.r.r)
    ensures Short(c.up, T(s, c.n, c.red, T(c.r.l, c.r.n, true, c.r.r)))
  {
    var h: nat :| Balanced(s, h) && CtxBalanced(c, h + 1);
    CtxNoRedRedAny(c.up, c.red);
    var s' := T(s, c.n, c.red, T(c.r.l, c.r.n, true, c.r.r));
    assert Balanced(s', if c.red then h else h + 1);
    assert CtxBalanced(c.up, (if c.red then h else h + 1) + 1);
  }

  /** The outer nephew is red: one rotation ends the loop. */
  lemma {:induction false} FarNephewLeft(c: Ctx, s: Shape)
    requires Short(c, s) && !IsRed(s) && c.L? && c.r.T? && !c.r.red && IsRed(c.r.r)
    ensures RedBlack(Plug(c.up, T(T(s, c.n, false, c.r.l), c.r.n, c.red, Blacken(c.r.r))))
  {
    hide Plug, RedBlack;
    var h: nat :| Balanced(s, h) && CtxBalanced(c, h + 1);
    var u := T(T(s, c.n, false, c.r.l), c.r.n, c.red, Blacken(c.r.r));
    assert Balanced(c.r, h + 1) && NoRedRed(c.r);
    assert Balanced(c.r.l, h) && Balanced(c.r.r, h) && NoRedRed(c.r.l) && NoRedRed(c.r.r);
    assert Balanced(c.r.r.l, h) && Balanced(c.r.r.r, h) && NoRedRed(c.r.r.l) && NoRedRed(c.r.r.r);
    assert NoRedRed(Blacken(c.r.r)) && NoRedRed(s) && NoRedRed(T(s, c.n, false, c.r.l));
    assert Balanced(Blacken(c.r.r), h + 1) && Balanced(T(s, c.n, false, c.r.l), h + 1);
    assert NoRedRed(u) && CtxNoRedRed(c.up, c.red) && (c.up.Top? ==> !c.red);
    PlugRedBlack(c.up, u, if c.red then h + 1 else h + 2);
  }

  /** The inner nephew alone is red: rotating it above the sibling makes it the outer case. */
  lemma {:induction false} NearNephewLeft(c: Ctx, s: Shape)
    requires Short(c, s) && !IsRed(s) && c.L? && c.r.T? && !c.r.red && IsRed(c.r.l) && !IsRed(c.r.r)
    ensures var v := T(c.r.l.l, c.r.l.n, false, T(c.r.l.r, c.r.n, true, c.r.r));
            Short(L(c.up, c.n, c.red, v), s)
  {
    var h: nat :| Balanced(s, h) && CtxBalanced(c, h + 1);
    assert Balanced(c.r, h + 1) && NoRedRed(c.r);
    assert Balanced(c.r.l, h) && Balanced(c.r.r, h) && NoRedRed(c.r.l) && NoRedRed(c.r.r);
    assert Balanced(c.r.l.l, h) && Balanced(c.r.l.r, h);
    var v := T(c.r.l.l, c.r.l.n, false, T(c.r.l.r, c.r.n, true, c.r.r));
    assert Balanced(v, h + 1) && NoRedRed(v);
    assert CtxBalanced(L(c.up, c.n, c.red, v), h + 1);
  }

  /** A red sibling: rotate it above the parent; the new sibling is black. */
  lemma {:induction false} RedSiblingRight(c: Ctx, s: Shape)
    requires Short(c, s) && !IsRed(s) && c.R? && IsRed(c.l)
    ensures !c.red && !IsRed(c.l.r)
    ensures Short(R(R(c.up, c.l.n, false, c.l.l), c.n, true, c.l.r), s)
  {
    var h: nat :| Balanced(s, h) && CtxBalanced(c, h + 1);
    assert CtxBalanced(c.up, h + 2) && CtxNoRedRed(c.up, false) && Balanced(c.l, h + 1);
    assert CtxBalanced(R(c.up, c.l.n, false, c.l.l), h + 1);
    assert CtxRootBlack(R(c.up, c.l.n, false, c.l.l));
  }

  /** A black sibling without red children: redden it; the parent's place is now short. */
  lemma {:induction false} BlackNephewsRight(c: Ctx, s: Shape)
    requires Short(c, s) && !IsRed(s) && c.R? && c.l.T? && !c.l.red && !IsRed(c.l.l) && !IsRed(c.l.r)
    ensures Short(c.up, T(T(c.l.l, c.l.n, true, c.l.r), c.n, c.red, s))
  {
    var h: nat :| Balanced(s, h) && CtxBalanced(c, h + 1);
    CtxNoRedRedAny(c.up, c.red);
    var s' := T(T(c.l.l, c.l.n, true, c.l.r), c.n, c.red, s);
    assert Balanced(s', if c.red then h else h + 1);
    assert CtxBalanced(c.up, (if c.red then h else h + 1) + 1);
  }

  /** The outer nephew is red: one rotation ends the loop. */
  lemma {:induction false} FarNephewRight(c: Ctx, s: Shape)
    requires Short(c, s) && !IsRed(s) && c.R? && c.l.T? && !c.l.red && IsRed(c.l.l)
    ensures RedBlack(Plug(c.up, T(Blacken(c.l.l), c.l.n, c.red, T(c.l.r, c.n, false, s))))
  {
    hide Plug, RedBlack;
    var h: nat :| Balanced(s, h) && CtxBalanced(c, h + 1);
    var u := T(Blacken(c.l.l), c.l.n, c.red, T(c.l.r, c.n, false, s));
    assert Balanced(c.l, h + 1) && NoRedRed(c.l);
    assert Balanced(c.l.r, h) && Balanced(c.l.l, h) && NoRedRed(c.l.r) && NoRedRed(c.l.l);
    assert Balanced(c.l.l.l, h) && Balanced(c.l.l.r, h) && NoRedRed(c.l.l.l) && NoRedRed(c.l.l.r);
    assert NoRedRed(Blacken(c.l.l)) && NoRedRed(s) && NoRedRed(T(c.l.r, c.n, false, s));
    assert Balanced(Blacken(c.l.l), h + 1) && Balanced(T(c.l.r, c.n, false, s), h + 1);
    assert NoRedRed(u) && CtxNoRedRed(c.up, c.red) && (c.up.Top? ==> !c.red);
    PlugRedBlack(c.up, u, if c.red then h + 1 else h + 2);
  }

  /** The inner nephew alone is red: rotating it above the sibling makes it the outer case. */
  lemma {:induction false} NearNephewRight(c: Ctx, s: Shape)
    requires Short(c, s) && !IsRed(s) && c.R? && c.l.T? && !c.l.red && IsRed(c.l.r) && !IsRed(c.l.l)
    ensures var v := T(T(c.l.l, c.l.n, true, c.l.r.l), c.l.r.n, false, c.l.r.r);
            Short(R(c.up, c.n, c.red, v), s)
  {
    var h: nat :| Balanced(s, h) && CtxBalanced(c, h + 1);
    assert Balanced(c.l, h + 1) && NoRedRed(c.l);
    assert Balanced(c.l.r, h) && Balanced(c.l.l, h) && NoRedRed(c.l.r) && NoRedRed(c.l.l);
    assert Balanced(c.l.r.l, h) && Balanced(c.l.r.r, h);
    var v := T(T(c.l.l, c.l.n, true, c.l.r.l), c.l.r.n, false, c.l.r.r);
    assert Balanced(v, h + 1) && NoRedRed(v);
    assert CtxBalanced(R(c.up, c.n, c.red, v), h + 1);
  }

  /** elm is the root pointer's node exactly when the hole is at the top. */
  lemma {:induction false} AtTop(c: Ctx, s: Shape)
    requires Apart(Plug(c, s))
    ensures c.Top? <==> Root(Plug(c, s)) == Root(s)
  {
    hide Plug, Nodes, CtxNodes, Apart, CtxApart, Fields, CtxFields;
    PlugApart(c, s);
    PlugFields(c, s);
    RootIn(s);
    OutermostIn(c, Root(s));
  }

  lemma {:induction false} OutermostIn(c: Ctx, x: Node?)
    ensures !c.Top? ==> Outermost(c, x) != null && Outermost(c, x) in CtxNodes(c)
    ensures c.Top? ==> Outermost(c, x) == x
  {
    if !c.Top? { OutermostIn(c.up, c.n); }
  }

  /** The loop's variant: going up shortens the path, and a red node ends the loop. */
  function Turns(c: Ctx, s: Shape): nat {
    if IsRed(s) then 0 else Depth(c) + 1
  }

  /** The test `RB_LEFT(parent) == elm` finds the hole's side, even for a NULL elm,
      because a short place has a sibling. */
  lemma {:induction false} LeftOrRight(c: Ctx, s: Shape)
    requires Apart(Plug(c, s)) && Short(c, s) && !c.Top?
    ensures var m := Fields(Plug(c, s), null);
            c.n in m && (m[c.n].left == Root(s) <==> c.L?)
  {
    hide Plug, Fields, Nodes, CtxNodes, Apart, CtxFields;
    ShortSibling(c, s);
    PlugUp(c, s);
    if s.T? {
      LookUp(c, s);
    } else if c.L? {
      Look(c.up, T(s, c.n, c.red, c.r));
    } else {
      Look(c.up, T(c.l, c.n, c.red, s));
    }
  }

  /** A good tree's root is black already. */
  lemma {:induction false} BlackRoot(u: Shape)
    requires RedBlack(u)
    ensures Blacken(u) == u
  {
  }

  // ---------- contents ----------

  /** q' is q without its element n. */
  predicate Removed(q: seq<Node>, n: Node, q': seq<Node>) {
    exists i :: 0 <= i < |q| && q[i] == n && q' == q[..i] + q[i + 1..]
  }

  lemma {:induction false} RemovedMiddle(x: seq<Node>, n: Node, y: seq<Node>)
    ensures Removed(x + [n] + y, n, x + y)
  {
    var q := x + [n] + y;
    assert q[|x|] == n && q[..|x|] == x && q[|x| + 1..] == y;
  }

  lemma {:induction false} RemovedSorted(q: seq<Node>, n: Node, q': seq<Node>)
    requires Sorted(q) && Removed(q, n, q')
    ensures Sorted(q')
  {
    var i :| 0 <= i < |q| && q[i] == n && q' == q[..i] + q[i + 1..];
    hide Removed;
    assert forall j :: 0 <= j < i ==> q'[j] == q[j];
    assert forall j :: i <= j < |q'| ==> q'[j] == q[j + 1];
  }

  lemma {:induction false} SpliceInorder(c: Ctx, l: Shape, n: Node, red: bool, r: Shape, k: Shape)
    requires (l.Leaf? && k == r) || (r.Leaf? && k == l)
    ensures Removed(Inorder(Plug(c, T(l, n, red, r))), n, Inorder(Plug(c, k)))
  {
    hide Plug, Before, After, Removed;
    PlugInorder(c, T(l, n, red, r));
    PlugInorder(c, k);
    var b, x, y, a := Before(c), Inorder(l), Inorder(r), After(c);
    assert b + (x + [n] + y) + a == (b + x) + [n] + (y + a);
    assert b + Inorder(k) + a == (b + x) + (y + a);
    RemovedMiddle(b + x, n, y + a);
  }

  /** Taking the successor out of the right subtree and putting it in n's place removes n. */
  lemma {:induction false} SuccessorInorder(c: Ctx, l: Shape, n: Node, red: bool, c2: Ctx, m: Node, mred: bool, mr: Shape)
    requires LeftSpine(c2)
    ensures Removed(Inorder(Plug(c, T(l, n, red, Plug(c2, T(Leaf, m, mred, mr))))), n,
                    Inorder(Plug(c, T(l, m, red, Plug(c2, mr)))))
  {
    hide Plug, Before, After, Removed, LeftSpine;
    LeftSpineBefore(c2);
    var r, r' := Plug(c2, T(Leaf, m, mred, mr)), Plug(c2, mr);
    PlugInorder(c2, T(Leaf, m, mred, mr));
    PlugInorder(c2, mr);
    PlugInorder(c, T(l, n, red, r));
    PlugInorder(c, T(l, m, red, r'));
    var b, x, y, a := Before(c), Inorder(l), Inorder(mr) + After(c2), After(c);
    assert Inorder(r) == [m] + y && Inorder(r') == y;
    Regrouped(b, x, n, [m] + y, a);
    Regrouped(b, x, m, y, a);
    Reassociated(b + x, m, y, a);
    RemovedMiddle(b + x, n, [m] + y + a);
  }

  lemma {:induction false} Reassociated(p: seq<Node>, m: Node, y: seq<Node>, a: seq<Node>)
    ensures p + [m] + (y + a) == p + ([m] + y + a)
  {
  }

  lemma {:induction false} Regrouped(b: seq<Node>, x: seq<Node>, n: Node, y: seq<Node>, a: seq<Node>)
    ensures b + (x + [n] + y) + a == b + x + [n] + (y + a)
  {
  }

  /** The successor's old place, seen from the new tree, is as short as it was in the old one. */
  lemma {:induction false} ShortSuccessor(c: Ctx, l: Shape, n: Node, red: bool, c2: Ctx, m: Node, mred: bool, mr: Shape)
    requires RedBlack(Plug(c, T(l, n, red, Plug(c2, T(Leaf, m, mred, mr)))))
    ensures !mred ==> Short(Extend(c2, R(c, m, red, l)), mr)
    ensures mred ==> RedBlack(Plug(c, T(l, m, red, Plug(c2, mr))))
  {
    hide Plug, RedBlack;
    var c0, c1 := Extend(c2, R(c, n, red, l)), Extend(c2, R(c, m, red, l));
    var s := T(Leaf, m, mred, mr);
    PlugUp(R(c, n, red, l), Plug(c2, s));
    PlugUp(R(c, m, red, l), Plug(c2, mr));
    ExtendPlug(c2, R(c, n, red, l), s);
    ExtendPlug(c2, R(c, m, red, l), mr);
    UnplugRedBlack(c0, s);
    var h: nat :| Balanced(s, h) && CtxBalanced(c0, h);
    Renamed(c2, c, n, m, red, l, h, mred);
    CtxNoRedRedAny(c1, mred);
    if mred {
      PlugRedBlack(c1, mr, h);
    } else {
      assert Balanced(mr, h - 1) && CtxBalanced(c1, h - 1 + 1);
    }
  }

  /** Everything RB_REMOVE of a node with two children relies on: c0 is the
      successor's place in the old tree, c1 the same place in the new one. */
  lemma {:induction false} SuccessorFacts(c: Ctx, l: Shape, n: Node, red: bool, c2: Ctx, m: Node, mred: bool, mr: Shape,
                                          t: Shape, c0: Ctx, c1: Ctx, between: Shape)
    requires t == Plug(c, T(l, n, red, Plug(c2, T(Leaf, m, mred, mr)))) && RedBlack(t) && Apart(t) && LeftSpine(c2)
    requires c0 == Extend(c2, R(c, n, red, l)) && c1 == Extend(c2, R(c, m, red, l)) && between == Plug(c2, mr)
    ensures t == Plug(c0, T(Leaf, m, mred, mr))
    ensures Plug(c0, mr) == Plug(c, T(l, n, red, between))
    ensures Plug(c1, mr) == Plug(c, T(l, m, red, between))
    ensures Removed(Inorder(t), n, Inorder(Plug(c1, mr)))
    ensures if mred then RedBlack(Plug(c1, mr)) else Short(c1, mr)
    ensures Parent(c1) == if Parent(c0) == n then m else Parent(c0)
  {
    hide Plug, Nodes, CtxNodes, Apart, Inorder, RedBlack, Short, Removed, LeftSpine;
    var base, base' := R(c, n, red, l), R(c, m, red, l);
    var s := T(Leaf, m, mred, mr);
    ExtendPlug(c2, base, s);
    ExtendPlug(c2, base, mr);
    ExtendPlug(c2, base', mr);
    PlugUp(base, Plug(c2, s));
    PlugUp(base, between);
    PlugUp(base', between);
    SuccessorInorder(c, l, n, red, c2, m, mred, mr);
    ShortSuccessor(c, l, n, red, c2, m, mred, mr);
    ExtendParent(c2, base, base');
    if !c2.Top? { ExtendApart(c2, base, s); }
  }
}
