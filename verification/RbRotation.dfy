/** What a rotation does to the links, on stores. */
module RbRotation {
  import opened RbShape

  ghost function RotatedLeft(t: Tree): Tree
    requires t.Fork? && t.r.Fork?
  {
    Fork(Fork(t.l, t.n, t.red, t.r.l), t.r.n, t.r.red, t.r.r)
  }

  ghost function RotatedRight(t: Tree): Tree
    requires t.Fork? && t.l.Fork?
  {
    Fork(t.l.l, t.l.n, t.l.red, Fork(t.l.r, t.n, t.red, t.r))
  }

  lemma {:induction false} RotatedLeftNodes(t: Tree)
    requires t.Fork? && t.r.Fork? && Distinct(t)
    ensures Distinct(RotatedLeft(t)) && Nodes(RotatedLeft(t)) == Nodes(t)
  {
    assert Distinct(t.r) && Nodes(t.r) == Nodes(t.r.l) + {t.r.n} + Nodes(t.r.r);
  }

  lemma {:induction false} SameInOrder(c: Ctx, t: Tree, u: Tree)
    requires InOrder(t) == InOrder(u)
    ensures InOrder(Plug(c, t)) == InOrder(Plug(c, u))
  {
    PlugInOrder(c, t);
    PlugInOrder(c, u);
  }

  lemma {:induction false} RotatedLeftInOrder(c: Ctx, t: Tree)
    requires t.Fork? && t.r.Fork?
    ensures InOrder(Plug(c, RotatedLeft(t))) == InOrder(Plug(c, t))
  {
    var u, a, b, d := RotatedLeft(t), InOrder(t.l), InOrder(t.r.l), InOrder(t.r.r);
    calc {
      InOrder(u);
      InOrder(u.l) + [u.n] + d;
      (a + [t.n] + b) + [u.n] + d;
      a + [t.n] + (b + [u.n] + d);
      InOrder(t);
    }
    SameInOrder(c, t, u);
  }

  lemma {:induction false} RotatedRightInOrder(c: Ctx, t: Tree)
    requires t.Fork? && t.l.Fork?
    ensures InOrder(Plug(c, RotatedRight(t))) == InOrder(Plug(c, t))
  {
    var u, a, b, d := RotatedRight(t), InOrder(t.l.l), InOrder(t.l.r), InOrder(t.r);
    calc {
      InOrder(u);
      a + [u.n] + InOrder(u.r);
      a + [u.n] + (b + [t.n] + d);
      (a + [u.n] + b) + [t.n] + d;
      InOrder(t);
    }
    SameInOrder(c, t, u);
  }

  // The innermost node of c and the root of t, as sets.
  ghost function Inner(c: Ctx): set<Node> {
    if c.Top? then {} else {c.n}
  }

  ghost function RootSet(t: Tree): set<Node> {
    if t.Leaf? then {} else {t.n}
  }

  // k has the links of h, but for a rotation that puts y above x and mid below x.
  ghost predicate Rotation(c: Ctx, x: Node, y: Node, mid: Tree, h: Store, k: Store) {
    && k.Keys == h.Keys && x in h && y in h
    && (forall n | n in h && n != x && n != y && (c.Top? || n != c.n) ::
          k[n].left == h[n].left && k[n].right == h[n].right && k[n].red == h[n].red)
    && (forall n | n in h && n != x && n != y && (mid.Leaf? || n != mid.n) :: k[n].parent == h[n].parent)
    && (mid.Fork? ==> mid.n in k && k[mid.n].parent == x)
    && k[x].parent == y && k[x].red == h[x].red
    && k[y].parent == h[x].parent && k[y].red == h[y].red
    && (!c.Top? ==>
          && c.n in h && k[c.n].red == h[c.n].red
          && k[c.n].left == (if c.InLeft? then y else h[c.n].left)
          && k[c.n].right == (if c.InRight? then y else h[c.n].right))
  }

  lemma {:induction false} RotatedLeftZip(c: Ctx, t: Tree, s: Node, h: Store, k: Store)
    requires t.Fork? && t.r.Fork? && Zip(c, t, s, h) && ParentOk(c, t, h)
    requires Rotation(c, t.n, t.r.n, t.r.l, h, k)
    requires k[t.n].left == h[t.n].left && k[t.n].right == Root(t.r.l, s)
    requires k[t.r.n].left == t.n && k[t.r.n].right == h[t.r.n].right
    ensures Zip(c, RotatedLeft(t), s, k) && ParentOk(c, RotatedLeft(t), k)
  {
    hide Zip, Nodes, CtxNodes, Distinct, CtxDistinct, Down, Up, CtxDown, CtxUp, ParentIs, InOrder;
    LeftPieces(c, t, s, h);
    RotatedLeftNodes(t);
    RotatedPieces(c, t.n, t.r.n, t.l, t.r.l, t.r.r, s, h, k);
    RotatedLeftTree(c, t, s, h, k);
    ZipIntro(c, RotatedLeft(t), s, k);
  }

  // What a rotation inside c takes apart: the subtrees a, mid and d.
  ghost predicate Pieces(c: Ctx, x: Node, y: Node, a: Tree, mid: Tree, d: Tree, s: Node, h: Store) {
    && x in h && y in h && h.Keys >= Nodes(a) + Nodes(mid) + Nodes(d) + CtxNodes(c)
    && x !in Nodes(a) && x !in Nodes(mid) && x !in Nodes(d) && x !in CtxNodes(c)
    && y !in Nodes(a) && y !in Nodes(mid) && y !in Nodes(d) && y !in CtxNodes(c)
    && Nodes(a) !! Nodes(mid) && Nodes(d) !! Nodes(mid)
    && Nodes(a) !! CtxNodes(c) && Nodes(mid) !! CtxNodes(c) && Nodes(d) !! CtxNodes(c)
    && Distinct(mid) && CtxDistinct(c)
    && Down(a, s, h) && Up(a, h) && Down(mid, s, h) && Up(mid, h) && Down(d, s, h) && Up(d, h)
    && CtxUp(c, h) && (!c.Top? ==> CtxDown(c.up, c.n, s, h) && Down(c.sib, s, h))
  }

  lemma {:induction false} RotatedPieces(c: Ctx, x: Node, y: Node, a: Tree, mid: Tree, d: Tree, s: Node,
      h: Store, k: Store)
    requires Pieces(c, x, y, a, mid, d, s, h) && Rotation(c, x, y, mid, h, k)
    ensures Pieces(c, x, y, a, mid, d, s, k)
  {
    assert Inner(c) <= CtxNodes(c) && RootSet(mid) <= Nodes(mid);
    hide Nodes, CtxNodes, Distinct, CtxDistinct, Down, Up, CtxDown, CtxUp, Rotation;
    SubtreeMoved(a, c, x, y, mid, s, h, k);
    SubtreeMoved(d, c, x, y, mid, s, h, k);
    MidMoved(c, x, y, mid, s, h, k);
    CtxMoved(c, x, y, mid, s, h, k);
  }

  lemma {:induction false} RotatedLeftTree(c: Ctx, t: Tree, s: Node, h: Store, k: Store)
    requires t.Fork? && t.r.Fork? && Down(t, s, h) && Up(t, h)
    requires ParentOk(c, t, h) && CtxDown(c, t.n, s, h)
    requires Rotation(c, t.n, t.r.n, t.r.l, h, k)
    requires Pieces(c, t.n, t.r.n, t.l, t.r.l, t.r.r, s, k)
    requires k[t.n].left == h[t.n].left && k[t.n].right == Root(t.r.l, s)
    requires k[t.r.n].left == t.n && k[t.r.n].right == h[t.r.n].right
    ensures Down(RotatedLeft(t), s, k) && Up(RotatedLeft(t), k) && ParentOk(c, RotatedLeft(t), k)
    ensures CtxDown(c, t.r.n, s, k)
  {
    assert Down(t.r, s, h) && Up(t.r, h);
    assert ParentIs(t.l, t.n, k) && ParentIs(t.r.r, t.r.n, k);
    assert Down(RotatedLeft(t).l, s, k) && Up(RotatedLeft(t).l, k);
  }

  lemma {:induction false} ZipIntro(c: Ctx, t: Tree, s: Node, h: Store)
    requires Distinct(t) && CtxDistinct(c) && Nodes(t) !! CtxNodes(c)
    requires s !in Nodes(t) && s !in CtxNodes(c) && h.Keys == Nodes(t) + CtxNodes(c) + {s}
    requires Down(t, s, h) && Up(t, h) && CtxDown(c, Root(t, s), s, h) && CtxUp(c, h)
    ensures Zip(c, t, s, h)
  {
  }

  lemma {:induction false} LeftPieces(c: Ctx, t: Tree, s: Node, h: Store)
    requires t.Fork? && t.r.Fork? && Zip(c, t, s, h)
    ensures Pieces(c, t.n, t.r.n, t.l, t.r.l, t.r.r, s, h)
    ensures Distinct(t) && Nodes(t) !! CtxNodes(c) && s !in Nodes(t) && s !in CtxNodes(c)
    ensures h.Keys == Nodes(t) + CtxNodes(c) + {s} && Down(t, s, h) && Up(t, h) && CtxDown(c, t.n, s, h)
  {
    assert Distinct(t.r) && Nodes(t.r) == Nodes(t.r.l) + {t.r.n} + Nodes(t.r.r);
    assert Down(t.r, s, h) && Up(t.r, h);
  }

  lemma {:induction false} SubtreeMoved(t: Tree, c: Ctx, x: Node, y: Node, mid: Tree, s: Node, h: Store, k: Store)
    requires Rotation(c, x, y, mid, h, k) && Down(t, s, h) && Up(t, h)
    requires x !in Nodes(t) && y !in Nodes(t) && Nodes(t) !! Inner(c) && Nodes(t) !! RootSet(mid)
    ensures Down(t, s, k) && Up(t, k)
  {
    DownFrame(t, s, h, k);
    UpFrame(t, h, k);
  }

  lemma {:induction false} MidMoved(c: Ctx, x: Node, y: Node, mid: Tree, s: Node, h: Store, k: Store)
    requires Rotation(c, x, y, mid, h, k) && Down(mid, s, h) && Up(mid, h) && Distinct(mid)
    requires x !in Nodes(mid) && y !in Nodes(mid) && Nodes(mid) !! Inner(c)
    ensures Down(mid, s, k) && Up(mid, k)
  {
    DownFrame(mid, s, h, k);
    if mid.Fork? {
      UpFrame(mid.l, h, k);
      UpFrame(mid.r, h, k);
    }
  }

  // Of the context only the innermost node is changed.
  lemma {:induction false} CtxMoved(c: Ctx, x: Node, y: Node, mid: Tree, s: Node, h: Store, k: Store)
    requires Rotation(c, x, y, mid, h, k) && CtxUp(c, h) && CtxDistinct(c)
    requires !c.Top? ==> CtxDown(c.up, c.n, s, h) && Down(c.sib, s, h)
    requires x !in CtxNodes(c) && y !in CtxNodes(c) && CtxNodes(c) !! RootSet(mid)
    ensures !c.Top? ==> CtxDown(c.up, c.n, s, k) && Down(c.sib, s, k)
    ensures CtxUp(c, k)
  {
    CtxUpFrame(c, h, k);
    if !c.Top? {
      CtxDownFrame(c.up, c.n, s, h, k);
      DownFrame(c.sib, s, h, k);
    }
  }

  // What a left rotation of t inside c reads before it writes.
  lemma {:induction false} LeftCorner(c: Ctx, t: Tree, s: Node, h: Store)
    requires t.Fork? && t.r.Fork? && Zip(c, t, s, h) && ParentOk(c, t, h)
    ensures var x, y, b := t.n, t.r.n, t.r.l;
            && x in h && y in h && x != y && h[x].right == y && h[y].left == Root(b, s) && x != s && y != s
            && (b.Fork? ==> b.n in h && b.n != x && b.n != y && b.n != s)
            && (c.Top? ==> TopOf(c, x) == x && TopOf(c, y) == y)
            && (!c.Top? ==> c.n in h && c.n != s && c.n != x && c.n != y && (b.Fork? ==> b.n != c.n)
                            && h[x].parent == c.n && TopOf(c, x) != x && TopOf(c, x) == TopOf(c, y)
                            && (h[c.n].left == x <==> c.InLeft?) && (h[c.n].right == x <==> c.InRight?))
  {
    assert Down(t.r, s, h) && Distinct(t.r) && Nodes(t.r) <= Nodes(t) && Nodes(t.r.l) <= Nodes(t.r);
    TopIn(c, t.n);
  }

  // The nodes' links after a rotation that puts y in x's place below p (or at
  // the root) and x below y, with b handed from y to x; h holds the links before.
  ghost predicate TurnedAround(x: Node, y: Node, b: Node, p: Node?, atRoot: bool, s: Node, h: Store)
    reads h.Keys, x, y, b, p
  {
    && x.parent == y && y.parent == p && (b != s ==> b.parent == x)
    && (!atRoot ==>
          && p != null && p in h
          && p.left == (if h[p].left == x then y else h[p].left)
          && p.right == (if h[p].right == x then y else h[p].right))
    && (forall n | n in h && n != x && n != y && (atRoot || n != p) ::
          n.left == h[n].left && n.right == h[n].right)
    && (forall n | n in h && n != x && n != y && (b == s || n != b) :: n.parent == h[n].parent)
    && (forall n | n in h :: n.red == h[n].red)
  }

  lemma {:induction false} RotationSeen(c: Ctx, x: Node, y: Node, mid: Tree, s: Node, ns: set<Node>, h: Store)
    requires h.Keys == ns && x in ns && y in ns && x != y
    requires mid.Fork? ==> mid.n in ns && mid.n != x && mid.n != y && mid.n != s
    requires !c.Top? ==> c.n in ns && c.n != x && c.n != y
    requires !c.Top? ==> (h[c.n].left == x <==> c.InLeft?) && (h[c.n].right == x <==> c.InRight?)
    requires !c.Top? ==> h[x].parent == c.n && (mid.Fork? ==> c.n != mid.n)
    requires TurnedAround(x, y, Root(mid, s), h[x].parent, c.Top?, s, h)
    ensures Rotation(c, x, y, mid, h, Snap(ns))
  {
  }

  // ----- the mirror image -----

  lemma {:induction false} RotatedRightNodes(t: Tree)
    requires t.Fork? && t.l.Fork? && Distinct(t)
    ensures Distinct(RotatedRight(t)) && Nodes(RotatedRight(t)) == Nodes(t)
  {
    assert Distinct(t.l) && Nodes(t.l) == Nodes(t.l.r) + {t.l.n} + Nodes(t.l.l);
  }

  lemma {:induction false} RotatedRightZip(c: Ctx, t: Tree, s: Node, h: Store, k: Store)
    requires t.Fork? && t.l.Fork? && Zip(c, t, s, h) && ParentOk(c, t, h)
    requires Rotation(c, t.n, t.l.n, t.l.r, h, k)
    requires k[t.n].right == h[t.n].right && k[t.n].left == Root(t.l.r, s)
    requires k[t.l.n].right == t.n && k[t.l.n].left == h[t.l.n].left
    ensures Zip(c, RotatedRight(t), s, k) && ParentOk(c, RotatedRight(t), k)
  {
    hide Zip, Nodes, CtxNodes, Distinct, CtxDistinct, Down, Up, CtxDown, CtxUp, ParentIs, InOrder;
    RightPieces(c, t, s, h);
    RotatedRightNodes(t);
    RotatedPieces(c, t.n, t.l.n, t.r, t.l.r, t.l.l, s, h, k);
    RotatedRightTree(c, t, s, h, k);
    ZipIntro(c, RotatedRight(t), s, k);
  }

  lemma {:induction false} RotatedRightTree(c: Ctx, t: Tree, s: Node, h: Store, k: Store)
    requires t.Fork? && t.l.Fork? && Down(t, s, h) && Up(t, h)
    requires ParentOk(c, t, h) && CtxDown(c, t.n, s, h)
    requires Rotation(c, t.n, t.l.n, t.l.r, h, k)
    requires Pieces(c, t.n, t.l.n, t.r, t.l.r, t.l.l, s, k)
    requires k[t.n].right == h[t.n].right && k[t.n].left == Root(t.l.r, s)
    requires k[t.l.n].right == t.n && k[t.l.n].left == h[t.l.n].left
    ensures Down(RotatedRight(t), s, k) && Up(RotatedRight(t), k) && ParentOk(c, RotatedRight(t), k)
    ensures CtxDown(c, t.l.n, s, k)
  {
    assert Down(t.l, s, h) && Up(t.l, h);
    assert ParentIs(t.r, t.n, k) && ParentIs(t.l.l, t.l.n, k);
    assert Down(RotatedRight(t).r, s, k) && Up(RotatedRight(t).r, k);
  }

  lemma {:induction false} RightPieces(c: Ctx, t: Tree, s: Node, h: Store)
    requires t.Fork? && t.l.Fork? && Zip(c, t, s, h)
    ensures Pieces(c, t.n, t.l.n, t.r, t.l.r, t.l.l, s, h)
    ensures Distinct(t) && Nodes(t) !! CtxNodes(c) && s !in Nodes(t) && s !in CtxNodes(c)
    ensures h.Keys == Nodes(t) + CtxNodes(c) + {s} && Down(t, s, h) && Up(t, h) && CtxDown(c, t.n, s, h)
  {
    assert Distinct(t.l) && Nodes(t.l) == Nodes(t.l.r) + {t.l.n} + Nodes(t.l.l);
    assert Down(t.l, s, h) && Up(t.l, h);
  }

  lemma {:induction false} RightCorner(c: Ctx, t: Tree, s: Node, h: Store)
    requires t.Fork? && t.l.Fork? && Zip(c, t, s, h) && ParentOk(c, t, h)
    ensures var x, y, b := t.n, t.l.n, t.l.r;
            && x in h && y in h && x != y && h[x].left == y && h[y].right == Root(b, s) && x != s && y != s
            && (b.Fork? ==> b.n in h && b.n != x && b.n != y && b.n != s)
            && (c.Top? ==> TopOf(c, x) == x && TopOf(c, y) == y)
            && (!c.Top? ==> c.n in h && c.n != s && c.n != x && c.n != y && (b.Fork? ==> b.n != c.n)
                            && h[x].parent == c.n && TopOf(c, x) != x && TopOf(c, x) == TopOf(c, y)
                            && (h[c.n].left == x <==> c.InLeft?) && (h[c.n].right == x <==> c.InRight?))
  {
    assert Down(t.l, s, h) && Distinct(t.l) && Nodes(t.l) <= Nodes(t) && Nodes(t.l.r) <= Nodes(t.l);
    TopIn(c, t.n);
  }

  // ----- recolouring and attaching -----

  lemma {:induction false} RecolouredZip(c: Ctx, t: Tree, red: bool, s: Node, h: Store, k: Store)
    requires t.Fork? && Zip(c, t, s, h) && ParentOk(c, t, h) && k.Keys == h.Keys
    requires forall n | n in h && n != t.n :: k[n] == h[n]
    requires k[t.n] == h[t.n].(red := red)
    ensures Zip(c, t.(red := red), s, k) && ParentOk(c, t.(red := red), k)
  {
    ZipParts(c, t, s, h);
    assert t.n !in Nodes(t.l) && t.n !in Nodes(t.r) && t.n !in CtxNodes(c) && t.n in h;
    hide Zip, Distinct, CtxDistinct, Nodes, CtxNodes;
    DownFrame(t.l, s, h, k);
    DownFrame(t.r, s, h, k);
    UpFrame(t, h, k);
    CtxDownFrame(c, t.n, s, h, k);
    CtxUpFrame(c, h, k);
    ZipIntro(c, t.(red := red), s, k);
  }

  lemma {:induction false} ZipParts(c: Ctx, t: Tree, s: Node, h: Store)
    requires Zip(c, t, s, h)
    ensures Distinct(t) && CtxDistinct(c) && Nodes(t) !! CtxNodes(c)
    ensures s !in Nodes(t) && s !in CtxNodes(c) && h.Keys == Nodes(t) + CtxNodes(c) + {s}
    ensures Down(t, s, h) && Up(t, h) && CtxDown(c, Root(t, s), s, h) && CtxUp(c, h)
    ensures t.Fork? ==> forall red :: Distinct(t.(red := red)) && Nodes(t.(red := red)) == Nodes(t)
  {
  }

  lemma {:induction false} AttachedZip(c: Ctx, node: Node, s: Node, h: Store, k: Store)
    requires !c.Top? && Zip(c, Leaf, s, h) && node !in h && k.Keys == h.Keys + {node} && c.n in h
    requires k[node] == Cell(s, s, c.n, true)
    requires forall n | n in h && n != c.n :: k[n] == h[n]
    requires k[c.n] == if c.InLeft? then h[c.n].(left := node) else h[c.n].(right := node)
    ensures Zip(c, Fork(Leaf, node, true, Leaf), s, k) && ParentOk(c, Fork(Leaf, node, true, Leaf), k)
  {
    DownFrame(c.sib, s, h, k);
    CtxDownFrame(c.up, c.n, s, h, k);
    CtxUpFrame(c, h, k);
  }

  lemma {:induction false} SlotOrder(c: Ctx, node: Node)
    ensures InOrder(Plug(c, Leaf)) == Before(c) + After(c)
    ensures InOrder(Plug(c, Fork(Leaf, node, true, Leaf))) == Before(c) + [node] + After(c)
  {
    PlugInOrder(c, Leaf);
    PlugInOrder(c, Fork(Leaf, node, true, Leaf));
  }
}
