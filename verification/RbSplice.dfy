/** What unlinking and replacing a node does to the links, on stores. */
module RbSplice {
  import opened RbShape
  import opened RbRotation
  import opened RbBalance

  // ----- composed contexts -----

  lemma {:induction false} PlugCompose(c: Ctx, d: Ctx, t: Tree)
    ensures Plug(Compose(c, d), t) == Plug(d, Plug(c, t))
    decreases c
  {
    if !c.Top? {
      assert Filled(Compose(c, d), t) == Filled(c, t);
      PlugCompose(c.up, d, Filled(c, t));
    }
  }

  lemma {:induction false} ZipUpTo(c: Ctx, d: Ctx, t: Tree, s: Node, h: Store)
    requires Zip(Compose(c, d), t, s, h) && (c.Top? || ParentOk(c, t, h))
    ensures Zip(d, Plug(c, t), s, h)
    ensures Root(Plug(c, t), s) == TopOf(c, Root(t, s))
    decreases c
  {
    if !c.Top? {
      var e := Compose(c, d);
      assert e.up == Compose(c.up, d) && Filled(e, t) == Filled(c, t);
      MoveUp(e, t, s, h);
      ComposeParent(c.up, d, Filled(c, t), h);
      ZipUpTo(c.up, d, Filled(c, t), s, h);
    }
  }

  lemma {:induction false} ComposeParent(c: Ctx, d: Ctx, t: Tree, h: Store)
    ensures !c.Top? ==> (ParentOk(Compose(c, d), t, h) <==> ParentOk(c, t, h))
  {
  }

  lemma {:induction false} ZipDownTo(c: Ctx, d: Ctx, t: Tree, s: Node, h: Store)
    requires Zip(d, Plug(c, t), s, h) && ParentOk(d, Plug(c, t), h)
    ensures Zip(Compose(c, d), t, s, h) && ParentOk(Compose(c, d), t, h)
    decreases c
  {
    if !c.Top? {
      var e := Compose(c, d);
      assert e.up == Compose(c.up, d) && Filled(e, t) == Filled(c, t);
      ZipDownTo(c.up, d, Filled(c, t), s, h);
      MoveDown(e.up, Filled(e, t), s, h);
    }
  }

  ghost predicate LeftSpine(c: Ctx) {
    !c.Top? ==> c.InLeft? && LeftSpine(c.up)
  }

  // The leftmost node comes first.
  lemma {:induction false} SpineInOrder(c: Ctx, t: Tree)
    requires LeftSpine(c)
    ensures InOrder(Plug(c, t)) == InOrder(t) + After(c)
  {
    PlugInOrder(c, t);
    SpineBefore(c);
  }

  lemma {:induction false} SpineBefore(c: Ctx)
    requires LeftSpine(c)
    ensures Before(c) == []
  {
    if !c.Top? { SpineBefore(c.up); }
  }

  // ----- unlinking a node with at most one child -----

  ghost predicate OnlyChild(t: Tree, u: Tree) {
    t.Fork? && ((t.l.Leaf? && u == t.r) || (t.r.Leaf? && u == t.l))
  }

  ghost predicate Unlinked(c: Ctx, t: Tree, u: Tree, s: Node, h: Store, k: Store)
    requires t.Fork? && !c.Top?
  {
    && k.Keys == h.Keys - {t.n}
    && (forall n | n in k && n != c.n :: k[n].left == h[n].left && k[n].right == h[n].right && k[n].red == h[n].red)
    && (forall n | n in k && n != Root(u, s) :: k[n].parent == h[n].parent)
    && c.n in k && k[c.n].red == h[c.n].red
    && k[c.n].left == (if c.InLeft? then Root(u, s) else h[c.n].left)
    && k[c.n].right == (if c.InRight? then Root(u, s) else h[c.n].right)
  }

  lemma {:induction false} UnlinkedZip(c: Ctx, t: Tree, u: Tree, s: Node, h: Store, k: Store)
    requires !c.Top? && Zip(c, t, s, h) && OnlyChild(t, u) && Unlinked(c, t, u, s, h, k)
    ensures Zip(c, u, s, k)
  {
    ZipParts(c, t, s, h);
    OnlyChildParts(t, u, s, h);
    CtxApart(c);
    assert Root(u, s) !in CtxNodes(c);
    hide Zip, Distinct, CtxDistinct, Nodes, CtxNodes, Up;
    DownFrame(u, s, h, k);
    ChildUp(u, h, k);
    CtxUpFrame(c, h, k);
    DownFrame(c.sib, s, h, k);
    CtxDownFrame(c.up, c.n, s, h, k);
    ZipIntro(c, u, s, k);
  }

  lemma {:induction false} CtxApart(c: Ctx)
    requires !c.Top? && CtxDistinct(c)
    ensures c.n in CtxNodes(c) && c.n !in CtxNodes(c.up) && c.n !in Nodes(c.sib)
    ensures CtxNodes(c.up) <= CtxNodes(c) && Nodes(c.sib) <= CtxNodes(c)
  {
  }

  lemma {:induction false} OnlyChildParts(t: Tree, u: Tree, s: Node, h: Store)
    requires OnlyChild(t, u) && Distinct(t) && Down(t, s, h) && Up(t, h)
    ensures Distinct(u) && Nodes(t) == Nodes(u) + {t.n} && t.n !in Nodes(u) && Down(u, s, h) && Up(u, h)
    ensures u.Fork? ==> u.n in Nodes(u)
  {
  }

  lemma {:induction false} ChildUp(u: Tree, h: Store, k: Store)
    requires Distinct(u) && Up(u, h) && (u.Fork? ==> SameUp(Nodes(u) - {u.n}, h, k))
    ensures Up(u, k)
  {
    if u.Fork? {
      UpFrame(u.l, h, k);
      UpFrame(u.r, h, k);
    }
  }

  // The root goes and its only child becomes the black root.
  lemma {:induction false} RootGoneZip(t: Tree, u: Tree, s: Node, h: Store, k: Store)
    requires Zip(Top, t, s, h) && OnlyChild(t, u)
    requires k.Keys == h.Keys - {t.n} && Root(u, s) in k
    requires forall n | n in k && n != Root(u, s) :: k[n] == h[n]
    requires k[Root(u, s)] == h[Root(u, s)].(red := false)
    ensures Zip(Top, Blacken(u), s, k)
  {
    ZipParts(Top, t, s, h);
    OnlyChildParts(t, u, s, h);
    UpFrame(u, h, k);
    if u.Fork? {
      DownFrame(u.l, s, h, k);
      DownFrame(u.r, s, h, k);
      assert Up(Blacken(u), k) && Down(Blacken(u), s, k);
    }
    ZipIntro(Top, Blacken(u), s, k);
  }

  // ----- putting m in x's place -----

  ghost predicate Replaced(c: Ctx, x: Node, m: Node, a: Tree, b: Tree, h: Store, k: Store) {
    && x in h && m !in h && k.Keys == h.Keys - {x} + {m} && k[m] == h[x]
    && (forall n | n in k && n != m && (c.Top? || n != c.n) ::
          k[n].left == h[n].left && k[n].right == h[n].right && k[n].red == h[n].red)
    && (forall n | n in k && n != m && (a.Leaf? || n != a.n) && (b.Leaf? || n != b.n) :: k[n].parent == h[n].parent)
    && ParentIs(a, m, k) && ParentIs(b, m, k)
    && (!c.Top? ==>
          && c.n in k && c.n in h && k[c.n].red == h[c.n].red
          && k[c.n].left == (if c.InLeft? then m else h[c.n].left)
          && k[c.n].right == (if c.InRight? then m else h[c.n].right))
  }

  lemma {:induction false} ReplacedZip(c: Ctx, x: Node, m: Node, red: bool, a: Tree, b: Tree, s: Node, h: Store,
      k: Store)
    requires Zip(InRight(c, x, red, a), b, s, h) && Replaced(c, x, m, a, b, h, k)
    ensures Zip(c, Fork(a, m, red, b), s, k) && ParentOk(c, Fork(a, m, red, b), k)
  {
    var t := Fork(a, m, red, b);
    ReplacedApart(c, x, m, red, a, b, s, h);
    hide Zip, Distinct, CtxDistinct, Nodes, CtxNodes;
    DownFrame(a, s, h, k);
    DownFrame(b, s, h, k);
    ChildUpIn(a, b, m, c, x, h, k);
    ReplacedCtx(c, x, m, a, b, s, h, k);
    ZipIntro(c, t, s, k);
  }

  lemma {:induction false} ReplacedApart(c: Ctx, x: Node, m: Node, red: bool, a: Tree, b: Tree, s: Node, h: Store)
    requires Zip(InRight(c, x, red, a), b, s, h) && m !in h
    ensures Distinct(a) && Distinct(b) && Nodes(a) !! Nodes(b) && Nodes(a) !! CtxNodes(c) && Nodes(b) !! CtxNodes(c)
    ensures Distinct(Fork(a, m, red, b)) && CtxDistinct(c)
    ensures var u := Nodes(Fork(a, m, red, b)); u == Nodes(a) + Nodes(b) + {m} && u !! CtxNodes(c) && s !in u
    ensures s !in CtxNodes(c) && m !in CtxNodes(c) && x !in CtxNodes(c) && x !in Nodes(a) && x !in Nodes(b) &&
            m != s && x != s
    ensures h.Keys - {x} + {m} == Nodes(Fork(a, m, red, b)) + CtxNodes(c) + {s}
    ensures Down(a, s, h) && Up(a, h) && Down(b, s, h) && Up(b, h)
    ensures CtxDown(c, x, s, h) && CtxUp(c, h) && x in h
    ensures h[x].left == Root(a, s) && h[x].right == Root(b, s) && h[x].red == red
    ensures !c.Top? ==> h[x].parent == c.n && c.n in CtxNodes(c)
    ensures a.Fork? ==> a.n in Nodes(a)
    ensures b.Fork? ==> b.n in Nodes(b)
  {
  }

  lemma {:induction false} ChildUpIn(a: Tree, b: Tree, m: Node, c: Ctx, x: Node, h: Store, k: Store)
    requires Replaced(c, x, m, a, b, h, k) && Distinct(a) && Distinct(b) && Nodes(a) !! Nodes(b)
    requires m !in Nodes(a) && m !in Nodes(b) && x !in Nodes(a) && x !in Nodes(b)
    requires a.Fork? ==> a.n in Nodes(a)
    requires b.Fork? ==> b.n in Nodes(b)
    requires Up(a, h) && Up(b, h)
    ensures Up(a, k) && Up(b, k)
  {
    hide Nodes, Distinct, Up;
    ChildUp(a, h, k);
    ChildUp(b, h, k);
  }

  lemma {:induction false} ReplacedCtx(c: Ctx, x: Node, m: Node, a: Tree, b: Tree, s: Node, h: Store, k: Store)
    requires Replaced(c, x, m, a, b, h, k) && CtxDistinct(c)
    requires m !in CtxNodes(c) && x !in CtxNodes(c) && Nodes(a) !! CtxNodes(c) && Nodes(b) !! CtxNodes(c)
    requires a.Fork? ==> a.n in Nodes(a)
    requires b.Fork? ==> b.n in Nodes(b)
    requires CtxDown(c, x, s, h) && CtxUp(c, h)
    ensures CtxDown(c, m, s, k) && CtxUp(c, k)
  {
    CtxUpFrame(c, h, k);
    if !c.Top? {
      CtxApart(c);
      DownFrame(c.sib, s, h, k);
      CtxDownFrame(c.up, c.n, s, h, k);
    }
  }

  // ----- colours and order -----

  lemma {:induction false} UnlinkBalance(c: Ctx, t: Tree, u: Tree)
    requires OnlyChild(t, u) && Rb(t) && CtxRb(c, BlackHeight(t), IsRed(t))
    ensures t.red ==> Rb(Plug(c, u)) && !IsRed(Plug(c, u))
    ensures !t.red ==> OneShort(c, u)
    ensures Rb(Blacken(u)) && !IsRed(Blacken(u))
  {
    PlugRb(c, u);
    assert CtxRb(c, BlackHeight(t), false);
  }

  lemma {:induction false} RenameRb(e: Ctx, c: Ctx, x: Node, m: Node, red: bool, a: Tree, h: nat, r: bool)
    ensures CtxRb(Compose(e, InRight(c, x, red, a)), h, r) <==> CtxRb(Compose(e, InRight(c, m, red, a)), h, r)
  {
    if !e.Top? {
      RenameRb(e.up, c, x, m, red, a, h + (if e.red then 0 else 1), e.red);
    }
  }

  // The hole of a node that occurs in t.
  lemma {:induction false} Locate(c: Ctx, t: Tree, node: Node) returns (d: Ctx, u: Tree)
    requires node in Nodes(t)
    ensures u.Fork? && u.n == node && Plug(d, u) == Plug(c, t)
    decreases t
  {
    if t.n == node {
      d, u := c, t;
    } else if node in Nodes(t.l) {
      d, u := Locate(InLeft(c, t.n, t.red, t.r), t.l, node);
    } else {
      d, u := Locate(InRight(c, t.n, t.red, t.l), t.r, node);
    }
  }

  ghost predicate Without(order: seq<Node>, at: nat, node: Node, rest: seq<Node>) {
    at < |order| && order[at] == node && rest == order[..at] + order[at + 1..]
  }

  lemma {:induction false} UnlinkOrder(c: Ctx, t: Tree, u: Tree) returns (at: nat)
    requires OnlyChild(t, u)
    ensures Without(InOrder(Plug(c, t)), at, t.n, InOrder(Plug(c, u)))
  {
    PlugInOrder(c, t);
    PlugInOrder(c, u);
    var a, b := if t.l.Leaf? then [] else InOrder(u), if t.l.Leaf? then InOrder(u) else [];
    assert InOrder(t) == a + [t.n] + b && InOrder(u) == a + b;
    hide InOrder;
    at := DropMiddle(Before(c), a, t.n, b, After(c));
  }

  lemma {:induction false} DropMiddle(f: seq<Node>, a: seq<Node>, x: Node, b: seq<Node>, g: seq<Node>) returns (at: nat)
    ensures Without(f + (a + [x] + b) + g, at, x, f + (a + b) + g)
  {
    at := |f + a|;
    assert f + (a + [x] + b) + g == (f + a) + [x] + (b + g);
    assert f + (a + b) + g == (f + a) + (b + g);
  }

  // Replacing x by the leftmost node of its right subtree drops x from the order.
  lemma {:induction false} ReplaceOrder(c: Ctx, a: Tree, x: Node, red: bool, e: Ctx, u: Tree) returns (at: nat)
    requires LeftSpine(e) && u.Fork? && u.l.Leaf?
    ensures Without(InOrder(Plug(c, Fork(a, x, red, Plug(e, u)))), at, x,
                    InOrder(Plug(Compose(e, InRight(c, u.n, red, a)), u.r)))
  {
    var t, t' := Fork(a, x, red, Plug(e, u)), Fork(a, u.n, red, Plug(e, u.r));
    PlugCompose(e, InRight(c, u.n, red, a), u.r);
    PlugInOrder(c, t);
    PlugInOrder(c, t');
    LeftmostFirst(e, u);
    var f, b, r := InOrder(a), InOrder(Plug(e, u)), InOrder(Plug(e, u.r));
    assert InOrder(t) == f + [x] + b;
    assert InOrder(t') == f + [u.n] + r;
    hide InOrder, Plug;
    assert f + b == f + [u.n] + r;
    at := DropMiddle(Before(c), f, x, b, After(c));
  }

  lemma {:induction false} LeftmostFirst(e: Ctx, u: Tree)
    requires LeftSpine(e) && u.Fork? && u.l.Leaf?
    ensures InOrder(Plug(e, u)) == [u.n] + InOrder(Plug(e, u.r))
  {
    SpineInOrder(e, u);
    SpineInOrder(e, u.r);
    assert InOrder(u) == [u.n] + InOrder(u.r);
    hide InOrder;
  }

  // The colours after the leftmost node of x's right subtree has moved up.
  lemma {:induction false} ReplaceBalance(c: Ctx, a: Tree, x: Node, red: bool, e: Ctx, u: Tree)
    requires u.Fork? && u.l.Leaf?
    requires var w := Plug(c, Fork(a, x, red, Plug(e, u))); Rb(w) && !IsRed(w)
    ensures var d := Compose(e, InRight(c, u.n, red, a));
            && (u.red ==> Rb(Plug(d, u.r)) && !IsRed(Plug(d, u.r)))
            && (!u.red ==> OneShort(d, u.r))
  {
    var d0 := Compose(e, InRight(c, x, red, a));
    PlugCompose(e, InRight(c, x, red, a), u);
    PlugRb(d0, u);
    RenameRb(e, c, x, u.n, red, a, BlackHeight(u), IsRed(u));
    UnlinkBalance(Compose(e, InRight(c, u.n, red, a)), u, u.r);
  }
}
