/** The in-place red-black tree. */
module RbTree {
  import opened RbShape
  import opened RbRotation
  import opened RbBalance
  import opened RbSplice

  datatype Policy = ByValue | ByTimer

  // The descent test of the two insert policies.
  predicate GoesLeft(policy: Policy, key: Key, at: Key) {
    match policy
    case ByValue => key < at
    case ByTimer => SignedDifference(key, at) < 0
  }

  // The word-sized subtraction of two keys, read as a signed word.
  function SignedDifference(a: Key, b: Key): int {
    var d := (a - b) % KEY_RANGE;
    if d < HALF_RANGE then d else d - KEY_RANGE
  }

  // ----- the order of keys -----

  // Where a key lies, counted from base. Plain keys are counted from zero;
  // timer keys go round the clock, so their distance from base is what counts.
  ghost function Rank(policy: Policy, base: Key, key: Key): int {
    match policy
    case ByValue => key
    case ByTimer => (key - base) % KEY_RANGE
  }

  // Timer keys are comparable when they lie within half the key range of base.
  ghost predicate InWindow(policy: Policy, base: Key, key: Key) {
    policy.ByTimer? ==> Rank(policy, base, key) < HALF_RANGE
  }

  lemma GoesLeftIsLess(policy: Policy, base: Key, a: Key, b: Key)
    requires InWindow(policy, base, a) && InWindow(policy, base, b)
    ensures GoesLeft(policy, a, b) <==> Rank(policy, base, a) < Rank(policy, base, b)
  {
    if policy.ByTimer? {
      var x, y := (a - base) % KEY_RANGE, (b - base) % KEY_RANGE;
      var q := (a - base) / KEY_RANGE - (b - base) / KEY_RANGE;
      assert a - b == x - y + q * KEY_RANGE;
      if x < y {
        assert (a - b) == (x - y + KEY_RANGE) + (q - 1) * KEY_RANGE;
        ModUnique(a - b, x - y + KEY_RANGE, q - 1);
      } else {
        ModUnique(a - b, x - y, q);
      }
    }
  }

  lemma ModUnique(n: int, r: int, q: int)
    requires 0 <= r < KEY_RANGE && n == r + q * KEY_RANGE
    ensures n % KEY_RANGE == r
  {
  }

  ghost function KeysOf(ns: seq<Node>): (ks: seq<Key>)
    reads (set n | n in ns)`key
    ensures |ks| == |ns| && forall i | 0 <= i < |ns| :: ks[i] == ns[i].key
    decreases |ns|
  {
    if ns == [] then [] else [ns[0].key] + KeysOf(ns[1..])
  }

  ghost predicate Ordered(policy: Policy, base: Key, ks: seq<Key>) {
    && (forall i | 0 <= i < |ks| :: InWindow(policy, base, ks[i]))
    && (forall i, j | 0 <= i < j < |ks| :: Rank(policy, base, ks[i]) <= Rank(policy, base, ks[j]))
  }

  // The first at keys rank at most as high as key, the others higher.
  ghost predicate SplitsAt(policy: Policy, base: Key, ks: seq<Key>, at: int, key: Key) {
    && 0 <= at <= |ks|
    && (forall i | 0 <= i < at :: Rank(policy, base, ks[i]) <= Rank(policy, base, key))
    && (forall i | at <= i < |ks| :: Rank(policy, base, key) < Rank(policy, base, ks[i]))
  }

  lemma {:induction false} SplitStaysOrdered(policy: Policy, base: Key, ks: seq<Key>, at: nat, key: Key)
    requires Ordered(policy, base, ks) && InWindow(policy, base, key) && SplitsAt(policy, base, ks, at, key)
    ensures Ordered(policy, base, ks[..at] + [key] + ks[at..])
  {
    hide Rank;
  }

  // The place for a key lies between lo and hi, the bounds of t's keys in ks.
  ghost predicate Bounded(policy: Policy, base: Key, ks: seq<Key>, lo: int, hi: int, key: Key) {
    && 0 <= lo <= hi <= |ks|
    && (forall i | 0 <= i < lo :: Rank(policy, base, ks[i]) <= Rank(policy, base, key))
    && (forall i | hi <= i < |ks| :: Rank(policy, base, key) < Rank(policy, base, ks[i]))
  }

  // Going left or right of the key at position m keeps the place in bounds.
  lemma {:induction false} DescentStep(policy: Policy, base: Key, ks: seq<Key>, lo: int, m: int, hi: int, key: Key)
    requires Ordered(policy, base, ks) && InWindow(policy, base, key)
    requires Bounded(policy, base, ks, lo, hi, key) && lo <= m < hi
    ensures GoesLeft(policy, key, ks[m]) ==> Bounded(policy, base, ks, lo, m, key)
    ensures !GoesLeft(policy, key, ks[m]) ==> Bounded(policy, base, ks, m + 1, hi, key)
  {
    GoesLeftIsLess(policy, base, key, ks[m]);
    hide Rank, GoesLeft;
  }

  // Where t's nodes lie in the in-order sequence of the whole tree.
  lemma {:induction false} Position(c: Ctx, t: Tree)
    requires t.Fork?
    ensures var order, m := InOrder(Plug(c, t)), |Before(c)| + |InOrder(t.l)|;
            && |order| == |Before(c)| + |InOrder(t)| + |After(c)|
            && m < |Before(c)| + |InOrder(t)| && order[m] == t.n
            && |Before(InLeft(c, t.n, t.red, t.r))| == |Before(c)| && |After(InLeft(c, t.n, t.red, t.r))| == |order| - m
            && |Before(InRight(c, t.n, t.red, t.l))| == m + 1 && |After(InRight(c, t.n, t.red, t.l))| == |After(c)|
  {
    PlugInOrder(c, t);
  }

  class RbTree {
    var root: Node
    const sentinel: Node
    const policy: Policy
    ghost var shape: Tree
    ghost var nodes: set<Node>  // the tree's nodes and the sentinel

    constructor (s: Node, p: Policy)
      modifies s`red
      ensures Valid() && sentinel == s && policy == p && shape == Leaf && nodes == {s}
    {
      root, sentinel, policy, shape := s, s, p, Leaf;
      s.red := false;
      nodes := {s};
    }

    ghost predicate Valid()
      reads this, nodes`left, nodes`right, nodes`parent, nodes`red, sentinel`red
    {
      && At(Top, shape) && !sentinel.red
      && Rb(shape) && !IsRed(shape)
    }

    ghost function Order(): seq<Node>
      reads this`shape
    {
      InOrder(shape)
    }

    // The heap holds the tree t in the hole of c.
    ghost predicate At(c: Ctx, t: Tree)
      reads this`root, this`nodes, nodes`left, nodes`right, nodes`parent, nodes`red
    {
      && Zip(c, t, sentinel, Snap(nodes)) && ParentOk(c, t, Snap(nodes))
      && root == TopOf(c, Root(t, sentinel))
    }

    lemma {:induction false} Ascend(c: Ctx, t: Tree)
      requires At(c, t) && !c.Top?
      ensures At(c.up, Filled(c, t)) && Plug(c, t) == Plug(c.up, Filled(c, t))
    {
      hide Zip, ParentIs;
      MoveUp(c, t, sentinel, Snap(nodes));
    }

    lemma {:induction false} Descend(c: Ctx, t: Tree)
      requires At(c, t) && t.Fork?
      ensures At(InLeft(c, t.n, t.red, t.r), t.l) && Plug(InLeft(c, t.n, t.red, t.r), t.l) == Plug(c, t)
      ensures At(InRight(c, t.n, t.red, t.l), t.r) && Plug(InRight(c, t.n, t.red, t.l), t.r) == Plug(c, t)
    {
      hide Zip, ParentIs;
      MoveDown(c, t, sentinel, Snap(nodes));
    }

    // At, but for the parent link of t's root.
    ghost predicate Near(c: Ctx, t: Tree)
      reads this`root, this`nodes, nodes`left, nodes`right, nodes`parent, nodes`red
    {
      Zip(c, t, sentinel, Snap(nodes)) && root == TopOf(c, Root(t, sentinel))
    }

    // temp, the root of t, is one black node short of what c needs.
    ghost predicate Lacking(temp: Node, c: Ctx, t: Tree)
      reads this`root, this`nodes, nodes`left, nodes`right, nodes`parent, nodes`red, sentinel`red, temp`parent
    {
      && At(c, t) && OneShort(c, t) && temp == Root(t, sentinel) && !sentinel.red
      && (!c.Top? ==> temp.parent == c.n)
    }

    // What the links around the hole are.
    lemma {:induction false} See(c: Ctx, t: Tree)
      requires At(c, t)
      ensures sentinel in nodes
      ensures t.Fork? ==>
                && t.n in nodes && t.n != sentinel && t.n.red == t.red
                && t.n.left == Root(t.l, sentinel) && t.n.right == Root(t.r, sentinel)
                && (t.l.Fork? ==> t.l.n in nodes && t.l.n != sentinel && t.l.n.red == t.l.red)
                && (t.r.Fork? ==> t.r.n in nodes && t.r.n != sentinel && t.r.n.red == t.r.red)
      ensures c.Top? ==> root == Root(t, sentinel)
      ensures !c.Top? ==>
                && c.n in nodes && c.n != sentinel && c.n.red == c.red && root != Root(t, sentinel)
                && c.n.left == Root(if c.InLeft? then t else c.sib, sentinel)
                && c.n.right == Root(if c.InLeft? then c.sib else t, sentinel)
                && (t.Fork? ==> t.n.parent == c.n && t.n != c.n && c.n.left != c.n.right)
                && (c.sib.Fork? ==> c.sib.n in nodes && c.sib.n != sentinel && c.sib.n.red == c.sib.red
                                    && Root(t, sentinel) != c.sib.n)
    {
      TopIn(c, Root(t, sentinel));
      if t.Fork? {
        assert Down(t.l, sentinel, Snap(nodes)) && Down(t.r, sentinel, Snap(nodes));
      }
    }

    method SetRed(node: Node, red: bool, ghost c: Ctx, ghost t: Tree)
      requires At(c, t) && t.Fork? && t.n == node
      modifies node`red
      ensures At(c, t.(red := red))
      ensures InOrder(Plug(c, t.(red := red))) == InOrder(Plug(c, t))
    {
      See(c, t);
      SameInOrder(c, t, t.(red := red));
      ghost var h := Snap(nodes);
      hide Zip, ParentOk, Plug, InOrder;
      node.red := red;
      RecolouredZip(c, t, red, sentinel, h, Snap(nodes));
    }

    // The hole's root, be it the sentinel, becomes black.
    method SetBlack(temp: Node, ghost c: Ctx, ghost t: Tree)
      requires At(c, t) && temp == Root(t, sentinel) && !sentinel.red
      modifies temp`red
      ensures At(c, Blacken(t)) && !sentinel.red
      ensures InOrder(Plug(c, Blacken(t))) == InOrder(Plug(c, t))
    {
      See(c, t);
      SameInOrder(c, t, Blacken(t));
      ghost var h := Snap(nodes);
      hide Zip, ParentOk, Plug, InOrder;
      temp.red := false;
      if t.Fork? {
        RecolouredZip(c, t, false, sentinel, h, Snap(nodes));
      } else {
        assert Snap(nodes) == h;
      }
    }

    method RotateLeft(node: Node, ghost ns: set<Node>)
      requires node in ns && node.right != null && node.right in ns && node != node.right
      requires node.right != sentinel && node != sentinel
      requires var y := node.right;
               y.left != null && (y.left != sentinel ==> y.left in ns && y.left != node && y.left != y)
      requires node != root ==>
                 var p := node.parent;
                 p != null && p in ns && p != node && p != node.right && p != node.right.left && p != sentinel
                 && (p.left == node || p.right == node) && p.left != p.right
      modifies this`root, ns`left, ns`right, ns`parent
      ensures var x, y, b, p := node, old(node.right), old(node.right.left), old(node.parent);
        && x.left == old(x.left) && x.right == b && x.parent == y
        && y.left == x && y.right == old(y.right) && y.parent == p
        && (b != sentinel ==> b.parent == x)
        && (if x == old(root) then root == y
            else root == old(root)
                 && p.left == (if old(p.left) == x then y else old(p.left))
                 && p.right == (if old(p.right) == x then y else old(p.right)))
        && (forall n | n in ns && n != x && n != y && (x == old(root) || n != p) ::
             n.left == old(n.left) && n.right == old(n.right))
        && (forall n | n in ns && n != x && n != y && (n == sentinel || n != b) :: n.parent == old(n.parent))
    {
      var temp := node.right;
      node.right := temp.left;
      if temp.left != sentinel {
        temp.left.parent := node;
      }
      temp.parent := node.parent;
      if node == root {
        root := temp;
      } else if node == node.parent.left {
        node.parent.left := temp;
      } else {
        node.parent.right := temp;
      }
      temp.left := node;
      node.parent := temp;
    }

    method RotateRight(node: Node, ghost ns: set<Node>)
      requires node in ns && node.left != null && node.left in ns && node != node.left
      requires node.left != sentinel && node != sentinel
      requires var y := node.left;
               y.right != null && (y.right != sentinel ==> y.right in ns && y.right != node && y.right != y)
      requires node != root ==>
                 var p := node.parent;
                 p != null && p in ns && p != node && p != node.left && p != node.left.right && p != sentinel
                 && (p.right == node || p.left == node) && p.right != p.left
      modifies this`root, ns`left, ns`right, ns`parent
      ensures var x, y, b, p := node, old(node.left), old(node.left.right), old(node.parent);
        && x.right == old(x.right) && x.left == b && x.parent == y
        && y.right == x && y.left == old(y.left) && y.parent == p
        && (b != sentinel ==> b.parent == x)
        && (if x == old(root) then root == y
            else root == old(root)
                 && p.right == (if old(p.right) == x then y else old(p.right))
                 && p.left == (if old(p.left) == x then y else old(p.left)))
        && (forall n | n in ns && n != x && n != y && (x == old(root) || n != p) ::
             n.right == old(n.right) && n.left == old(n.left))
        && (forall n | n in ns && n != x && n != y && (n == sentinel || n != b) :: n.parent == old(n.parent))
    {
      var temp := node.left;
      node.left := temp.right;
      if temp.right != sentinel {
        temp.right.parent := node;
      }
      temp.parent := node.parent;
      if node == root {
        root := temp;
      } else if node == node.parent.right {
        node.parent.right := temp;
      } else {
        node.parent.left := temp;
      }
      temp.right := node;
      node.parent := temp;
    }

    method RotateLeftAt(node: Node, ghost c: Ctx, ghost t: Tree)
      requires t.Fork? && t.n == node && t.r.Fork? && At(c, t)
      modifies this`root, nodes`left, nodes`right, nodes`parent
      ensures At(c, RotatedLeft(t)) && sentinel.parent == old(sentinel.parent)
      ensures InOrder(Plug(c, RotatedLeft(t))) == InOrder(Plug(c, t))
    {
      ghost var h := Snap(nodes);
      LeftCorner(c, t, sentinel, h);
      RotatedLeftInOrder(c, t);
      hide Zip, ParentOk, TopOf, Rotation, InOrder, Plug;
      RotateLeft(node, nodes);
      RotationSeen(c, node, t.r.n, t.r.l, sentinel, nodes, h);
      RotatedLeftZip(c, t, sentinel, h, Snap(nodes));
    }

    method RotateRightAt(node: Node, ghost c: Ctx, ghost t: Tree)
      requires t.Fork? && t.n == node && t.l.Fork? && At(c, t)
      modifies this`root, nodes`left, nodes`right, nodes`parent
      ensures At(c, RotatedRight(t)) && sentinel.parent == old(sentinel.parent)
      ensures InOrder(Plug(c, RotatedRight(t))) == InOrder(Plug(c, t))
    {
      ghost var h := Snap(nodes);
      RightCorner(c, t, sentinel, h);
      RotatedRightInOrder(c, t);
      hide Zip, ParentOk, TopOf, Rotation, InOrder, Plug;
      RotateRight(node, nodes);
      RotationSeen(c, node, t.l.n, t.l.r, sentinel, nodes, h);
      RotatedRightZip(c, t, sentinel, h, Snap(nodes));
    }

    // Insert loop, red uncle: recolour and go on two levels up.
    method RedUncleUp(node: Node, uncle: Node, ghost c: Ctx, ghost t: Tree)
      returns (next: Node, ghost c': Ctx, ghost t': Tree)
      requires At(c, t) && RedRed(c, t) && t.n == node
      requires !c.Top? && c.red && !c.up.Top? && IsRed(c.up.sib) && c.up.sib.n == uncle
      modifies nodes`red
      ensures At(c', t') && RedRed(c', t') && t'.n == next && Depth(c') < Depth(c)
      ensures InOrder(Plug(c', t')) == InOrder(Plug(c, t)) && sentinel.red == old(sentinel.red)
    {
      hide At, Rb, CtxRb, BlackHeight, InOrder, Plug;
      var up, p, u := c.up, Filled(c, t), c.up.sib;
      See(c, t);
      Ascend(c, t);
      See(up, p);
      RedUncle(c, t);
      SetRed(node.parent, false, up, p);
      p := p.(red := false);
      Ascend(up, p);
      ghost var g := Filled(up, p);
      See(up.up, g);
      Descend(up.up, g);
      SetRed(uncle, false, if up.InLeft? then InRight(up.up, g.n, g.red, p) else InLeft(up.up, g.n, g.red, p), u);
      u := u.(red := false);
      Ascend(if up.InLeft? then InRight(up.up, g.n, g.red, p) else InLeft(up.up, g.n, g.red, p), u);
      g := if up.InLeft? then Fork(p, g.n, g.red, u) else Fork(u, g.n, g.red, p);
      SetRed(node.parent.parent, true, up.up, g);
      next := node.parent.parent;
      c', t' := up.up, g.(red := true);
    }

    // Insert loop, black uncle, parent a left child.
    method BlackUncleLeft(node: Node, ghost c: Ctx, ghost t: Tree)
      returns (next: Node, ghost c': Ctx, ghost t': Tree)
      requires At(c, t) && RedRed(c, t) && t.n == node
      requires !c.Top? && c.red && c.up.InLeft? && !IsRed(c.up.sib)
      modifies this`root, nodes`left, nodes`right, nodes`parent, nodes`red
      ensures At(c', t') && RedRed(c', t') && t'.n == next && Depth(c') < Depth(c)
      ensures InOrder(Plug(c', t')) == InOrder(Plug(c, t)) && sentinel.red == old(sentinel.red)
    {
      hide At, Rb, CtxRb, BlackHeight, InOrder, Plug;
      next, c', t' := node, c, t;
      See(c, t);
      if next == next.parent.right {
        InnerToOuter(c, t);
        Ascend(c, t);
        next := next.parent;
        RotateLeftAt(next, c.up, Filled(c, t));
        Descend(c.up, RotatedLeft(Filled(c, t)));
        c', t' := InLeft(c.up, t.n, true, t.r), Fork(c.sib, c.n, true, t.l);
        See(c', t');
      }
      OuterDone(c', t');
      Ascend(c', t');
      ghost var p := Filled(c', t');
      See(c.up, p);
      SetRed(next.parent, false, c.up, p);
      p := p.(red := false);
      Ascend(c.up, p);
      ghost var g := Filled(c.up, p);
      SetRed(next.parent.parent, true, c.up.up, g);
      g := g.(red := true);
      RotateRightAt(next.parent.parent, c.up.up, g);
      g := RotatedRight(g);
      Descend(c.up.up, g);
      c' := InLeft(c.up.up, g.n, g.red, g.r);
    }

    // Insert loop, black uncle, parent a right child.
    method BlackUncleRight(node: Node, ghost c: Ctx, ghost t: Tree)
      returns (next: Node, ghost c': Ctx, ghost t': Tree)
      requires At(c, t) && RedRed(c, t) && t.n == node
      requires !c.Top? && c.red && c.up.InRight? && !IsRed(c.up.sib)
      modifies this`root, nodes`left, nodes`right, nodes`parent, nodes`red
      ensures At(c', t') && RedRed(c', t') && t'.n == next && Depth(c') < Depth(c)
      ensures InOrder(Plug(c', t')) == InOrder(Plug(c, t)) && sentinel.red == old(sentinel.red)
    {
      hide At, Rb, CtxRb, BlackHeight, InOrder, Plug;
      next, c', t' := node, c, t;
      See(c, t);
      if next == next.parent.left {
        InnerToOuter(c, t);
        Ascend(c, t);
        next := next.parent;
        RotateRightAt(next, c.up, Filled(c, t));
        Descend(c.up, RotatedRight(Filled(c, t)));
        c', t' := InRight(c.up, t.n, true, t.l), Fork(t.r, c.n, true, c.sib);
        See(c', t');
      }
      OuterDone(c', t');
      Ascend(c', t');
      ghost var p := Filled(c', t');
      See(c.up, p);
      SetRed(next.parent, false, c.up, p);
      p := p.(red := false);
      Ascend(c.up, p);
      ghost var g := Filled(c.up, p);
      SetRed(next.parent.parent, true, c.up.up, g);
      g := g.(red := true);
      RotateLeftAt(next.parent.parent, c.up.up, g);
      g := RotatedLeft(g);
      Descend(c.up.up, g);
      c' := InRight(c.up.up, g.n, g.red, g.l);
    }

    // The end of both insert policies: node becomes a red child of temp.
    method Attach(node: Node, temp: Node, left: bool, ghost c: Ctx)
      requires At(c, Leaf) && !c.Top? && c.n == temp && node !in nodes && left == c.InLeft?
      modifies this`nodes, temp`left, temp`right, node`left, node`right, node`parent, node`red
      ensures nodes == old(nodes) + {node} && At(c, Fork(Leaf, node, true, Leaf))
    {
      See(c, Leaf);
      AttachTop(c, node);
      ghost var h := Snap(nodes);
      hide Zip, ParentOk, TopOf;
      if left {
        temp.left := node;
      } else {
        temp.right := node;
      }
      node.parent := temp;
      node.left := sentinel;
      node.right := sentinel;
      node.red := true;
      nodes := nodes + {node};
      AttachedZip(c, node, sentinel, h, Snap(nodes));
    }

    lemma {:induction false} AttachTop(c: Ctx, node: Node)
      requires !c.Top?
      ensures TopOf(c, node) == TopOf(c, sentinel)
    {
    }

    // The two insert policies: walk down from the root to a free place.
    method FindSlot(key: Key, ghost base: Key, ghost ks: seq<Key>) returns (temp: Node, left: bool, ghost c: Ctx)
      requires At(Top, shape) && shape.Fork? && ks == KeysOf(Order())
      ensures !c.Top? && c.n == temp && left == c.InLeft? && At(c, Leaf) && Plug(c, Leaf) == shape
      ensures Ordered(policy, base, ks) && InWindow(policy, base, key) ==>
                SplitsAt(policy, base, ks, |Before(c)|, key)
    {
      hide At, Ordered, InWindow, GoesLeft, Plug, InOrder, Bounded, SplitsAt, KeysOf, Before, After;
      temp, left, c := root, false, Top;
      ghost var t := shape;
      ghost var ordered := Ordered(policy, base, ks) && InWindow(policy, base, key);
      See(c, t);
      StartBounds(base, ks, key);
      while true
        invariant At(c, t) && t.Fork? && t.n == temp && Plug(c, t) == shape
        invariant ordered ==> Bounded(policy, base, ks, |Before(c)|, |ks| - |After(c)|, key)
        decreases t
      {
        See(c, t);
        Descend(c, t);
        Position(c, t);
        if ordered {
          DescentStep(policy, base, ks, |Before(c)|, |Before(c)| + |InOrder(t.l)|, |ks| - |After(c)|, key);
        }
        left := GoesLeft(policy, key, temp.key);
        var p := if left then temp.left else temp.right;
        c, t := if left then InLeft(c, t.n, t.red, t.r) else InRight(c, t.n, t.red, t.l), if left then t.l else t.r;
        if p == sentinel {
          break;
        }
        temp := p;
      }
      SlotOrder(c, temp);
      if ordered {
        BoundedSplits(base, ks, |Before(c)|, key);
      }
    }

    lemma StartBounds(base: Key, ks: seq<Key>, key: Key)
      ensures Before(Top) == [] && After(Top) == [] && Plug(Top, shape) == shape
      ensures Bounded(policy, base, ks, 0, |ks|, key)
    {
    }

    lemma BoundedSplits(base: Key, ks: seq<Key>, at: int, key: Key)
      requires Bounded(policy, base, ks, at, at, key)
      ensures SplitsAt(policy, base, ks, at, key)
    {
    }

    // The rebalancing loop of insert.
    method InsertFix(node: Node, ghost c0: Ctx, ghost t0: Tree)
      requires At(c0, t0) && RedRed(c0, t0) && t0.n == node && !sentinel.red
      modifies this`root, this`shape, nodes`left, nodes`right, nodes`parent, nodes`red
      ensures Valid() && InOrder(shape) == InOrder(Plug(c0, t0))
    {
      var cur := node;
      ghost var c, t := c0, t0;
      hide At, Rb, CtxRb, BlackHeight, InOrder, Plug;
      See(c, t);
      while cur != root && cur.parent.red
        invariant nodes == old(nodes) && !sentinel.red
        invariant At(c, t) && RedRed(c, t) && t.n == cur
        invariant InOrder(Plug(c, t)) == InOrder(Plug(c0, t0))
        invariant cur != root ==> cur.parent != null
        decreases Depth(c)
      {
        See(c, t);
        Ascend(c, t);
        HasGrandparent(c, t);
        See(c.up, Filled(c, t));
        if cur.parent == cur.parent.parent.left {
          var temp := cur.parent.parent.right;
          if temp.red {
            cur, c, t := RedUncleUp(cur, temp, c, t);
          } else {
            cur, c, t := BlackUncleLeft(cur, c, t);
          }
        } else {
          var temp := cur.parent.parent.left;
          if temp.red {
            cur, c, t := RedUncleUp(cur, temp, c, t);
          } else {
            cur, c, t := BlackUncleRight(cur, c, t);
          }
        }
        See(c, t);
      }
      See(c, t);
      InsertBalanced(c, t);
      AscendAll(c, t);
      See(Top, Plug(c, t));
      SetRed(root, false, Top, Plug(c, t));
      shape := Blacken(Plug(c, t));
      TopPlug(shape);
      TopPlug(Plug(c, t));
    }

    lemma {:induction false} TopPlug(t: Tree)
      ensures Plug(Top, t) == t
    {
    }

    lemma {:induction false} AscendAll(c: Ctx, t: Tree)
      requires At(c, t)
      ensures At(Top, Plug(c, t)) && (t.Fork? ==> Plug(c, t).Fork?)
      decreases c
    {
      if !c.Top? {
        Ascend(c, t);
        AscendAll(c.up, Filled(c, t));
      }
    }

    lemma NoKeys(base: Key, key: Key)
      ensures SplitsAt(policy, base, [], 0, key)
    {
    }

    method InsertFirst(node: Node)
      requires Valid() && root == sentinel && node !in nodes
      modifies this`root, this`shape, this`nodes, node`left, node`right, node`parent, node`red
      ensures Valid() && nodes == old(nodes) + {node}
      ensures old(Order()) == [] && Order() == [node]
    {
      See(Top, shape);
      node.parent := null;
      node.left := sentinel;
      node.right := sentinel;
      node.red := false;
      root := node;
      nodes, shape := nodes + {node}, Fork(Leaf, node, false, Leaf);
      assert nodes == {sentinel, node} && Nodes(shape) == {node} && Distinct(shape);
      assert Down(shape, sentinel, Snap(nodes)) && Up(shape, Snap(nodes));
    }

    method Insert(node: Node, ghost base: Key) returns (ghost at: nat)
      requires Valid() && node !in nodes
      modifies this`root, this`shape, this`nodes, nodes`left, nodes`right, nodes`parent, nodes`red,
               node`left, node`right, node`parent, node`red
      ensures Valid() && nodes == old(nodes) + {node}
      ensures at <= |old(Order())| && Order() == old(Order())[..at] + [node] + old(Order())[at..]
      ensures KeysOf(Order()) == old(KeysOf(Order()))[..at] + [node.key] + old(KeysOf(Order()))[at..]
      ensures old(Ordered(policy, base, KeysOf(Order()))) && InWindow(policy, base, node.key) ==>
                SplitsAt(policy, base, old(KeysOf(Order())), at, node.key)
    {
      hide At, Rb, Plug, InOrder, InWindow, Ordered, SplitsAt, KeysOf, Before, After, CtxRb, BlackHeight;
      See(Top, shape);
      ghost var ks := KeysOf(Order());
      if root == sentinel {
        at := 0;
        NoKeys(base, node.key);
        InsertFirst(node);
        return;
      }
      var temp, left;
      ghost var c;
      temp, left, c := FindSlot(node.key, base, ks);
      See(c, Leaf);
      FreshRed(c, node, shape);
      SlotOrder(c, node);
      Attach(node, temp, left, c);
      InsertFix(node, c, Fork(Leaf, node, true, Leaf));
      at := |Before(c)|;
      assert old(Order())[..at] == Before(c) && old(Order())[at..] == After(c);
    }

    // ----- delete -----

    // Delete loop, red sibling on the right: turn it into a black one.
    method RedSiblingLeft(temp: Node, w: Node, ghost c: Ctx, ghost t: Tree) returns (next: Node, ghost c': Ctx)
      requires Lacking(temp, c, t) && c.InLeft? && !IsRed(t) && IsRed(c.sib) && w == c.sib.n
      modifies this`root, nodes`left, nodes`right, nodes`parent, nodes`red
      ensures Lacking(temp, c', t) && c'.InLeft? && c'.n == c.n && c'.red
      ensures c'.sib.Fork? && !c'.sib.red && next == c'.sib.n && BlackDepth(c') == BlackDepth(c)
      ensures InOrder(Plug(c', t)) == InOrder(Plug(c, t))
    {
      hide At, Rb, CtxRb, BlackHeight, InOrder, Plug;
      See(c, t);
      SiblingIsReal(c, t);
      RedSibling(c, t);
      ghost var d := InRight(c.up, c.n, c.red, t);
      Ascend(c, t);
      Descend(c.up, Filled(c, t));
      SetRed(w, false, d, c.sib);
      ghost var sib := c.sib.(red := false);
      Ascend(d, sib);
      ghost var p := Fork(t, c.n, c.red, sib);
      See(c.up, p);
      SetRed(temp.parent, true, c.up, p);
      p := p.(red := true);
      RotateLeftAt(temp.parent, c.up, p);
      p := RotatedLeft(p);
      Descend(c.up, p);
      Descend(InLeft(c.up, p.n, p.red, p.r), p.l);
      c' := InLeft(InLeft(c.up, p.n, p.red, p.r), c.n, true, p.l.r);
      See(c', t);
      next := temp.parent.right;
    }

    // Delete loop, black sibling on the right.
    method BlackSiblingLeft(temp: Node, w: Node, ghost c: Ctx, ghost t: Tree)
      returns (next: Node, ghost c': Ctx, ghost t': Tree)
      requires Lacking(temp, c, t) && c.InLeft? && !IsRed(t) && c.sib.Fork? && !c.sib.red && w == c.sib.n
      modifies this`root, nodes`left, nodes`right, nodes`parent, nodes`red
      ensures Lacking(next, c', t') && InOrder(Plug(c', t')) == InOrder(Plug(c, t))
      ensures c'.Top? || (c' == c.up && IsRed(t') == c.red)
    {
      hide At, Rb, CtxRb, BlackHeight, InOrder, Plug;
      See(c, t);
      Ascend(c, t);
      Descend(c.up, Filled(c, t));
      ghost var d, sib := InRight(c.up, c.n, c.red, t), c.sib;
      See(d, sib);
      if !w.left.red && !w.right.red {
        BlackNephews(c, t);
        SetRed(w, true, d, sib);
        Ascend(d, sib.(red := true));
        next := temp.parent;
        c', t' := c.up, Fork(t, c.n, c.red, sib.(red := true));
        See(c', t');
      } else {
        next, c', t' := FarNephewLeft(temp, w, c, t);
      }
    }

    method FarNephewLeft(temp: Node, w0: Node, ghost c: Ctx, ghost t: Tree)
      returns (next: Node, ghost c': Ctx, ghost t': Tree)
      requires Lacking(temp, c, t) && c.InLeft? && !IsRed(t) && c.sib.Fork? && !c.sib.red && w0 == c.sib.n
      requires IsRed(c.sib.l) || IsRed(c.sib.r)
      modifies this`root, nodes`left, nodes`right, nodes`parent, nodes`red
      ensures Lacking(next, c', t') && InOrder(Plug(c', t')) == InOrder(Plug(c, t)) && c'.Top?
    {
      hide At, Rb, CtxRb, BlackHeight, InOrder, Plug;
      var w := w0;
      ghost var d, sib := InRight(c.up, c.n, c.red, t), c.sib;
      See(c, t);
      Ascend(c, t);
      Descend(c.up, Filled(c, t));
      See(d, sib);
      c' := c;
      if !w.right.red {
        NearNephew(c, t);
        Descend(d, sib);
        SetRed(w.left, false, InLeft(d, sib.n, sib.red, sib.r), sib.l);
        Ascend(InLeft(d, sib.n, sib.red, sib.r), sib.l.(red := false));
        sib := Fork(sib.l.(red := false), sib.n, sib.red, sib.r);
        SetRed(w, true, d, sib);
        sib := sib.(red := true);
        RotateRightAt(w, d, sib);
        sib := RotatedRight(sib);
        Ascend(d, sib);
        Descend(c.up, Fork(t, c.n, c.red, sib));
        c' := InLeft(c.up, c.n, c.red, sib);
        See(c', t);
        w := temp.parent.right;
      }
      FarNephew(c', t);
      SetRed(w, temp.parent.red, d, sib);
      sib := sib.(red := c.red);
      Ascend(d, sib);
      ghost var p := Fork(t, c.n, c.red, sib);
      SetRed(temp.parent, false, c.up, p);
      p := p.(red := false);
      Descend(c.up, p);
      d := InRight(c.up, c.n, false, t);
      Descend(d, sib);
      See(d, sib);
      SetRed(w.right, false, InRight(d, sib.n, sib.red, sib.l), sib.r);
      Ascend(InRight(d, sib.n, sib.red, sib.l), sib.r.(red := false));
      sib := Fork(sib.l, sib.n, sib.red, sib.r.(red := false));
      Ascend(d, sib);
      p := Fork(t, c.n, false, sib);
      RotateLeftAt(temp.parent, c.up, p);
      p := RotatedLeft(p);
      AscendAll(c.up, p);
      See(Top, Plug(c.up, p));
      TopPlug(Plug(c.up, p));
      next := root;
      c', t' := Top, Plug(c.up, p);
    }

    // Delete loop, red sibling on the left: turn it into a black one.
    method RedSiblingRight(temp: Node, w: Node, ghost c: Ctx, ghost t: Tree) returns (next: Node, ghost c': Ctx)
      requires Lacking(temp, c, t) && c.InRight? && !IsRed(t) && IsRed(c.sib) && w == c.sib.n
      modifies this`root, nodes`left, nodes`right, nodes`parent, nodes`red
      ensures Lacking(temp, c', t) && c'.InRight? && c'.n == c.n && c'.red
      ensures c'.sib.Fork? && !c'.sib.red && next == c'.sib.n && BlackDepth(c') == BlackDepth(c)
      ensures InOrder(Plug(c', t)) == InOrder(Plug(c, t))
    {
      hide At, Rb, CtxRb, BlackHeight, InOrder, Plug;
      See(c, t);
      SiblingIsReal(c, t);
      RedSibling(c, t);
      ghost var d := InLeft(c.up, c.n, c.red, t);
      Ascend(c, t);
      Descend(c.up, Filled(c, t));
      SetRed(w, false, d, c.sib);
      ghost var sib := c.sib.(red := false);
      Ascend(d, sib);
      ghost var p := Fork(sib, c.n, c.red, t);
      See(c.up, p);
      SetRed(temp.parent, true, c.up, p);
      p := p.(red := true);
      RotateRightAt(temp.parent, c.up, p);
      p := RotatedRight(p);
      Descend(c.up, p);
      Descend(InRight(c.up, p.n, p.red, p.l), p.r);
      c' := InRight(InRight(c.up, p.n, p.red, p.l), c.n, true, p.r.l);
      See(c', t);
      next := temp.parent.left;
    }

    // Delete loop, black sibling on the left.
    method BlackSiblingRight(temp: Node, w: Node, ghost c: Ctx, ghost t: Tree)
      returns (next: Node, ghost c': Ctx, ghost t': Tree)
      requires Lacking(temp, c, t) && c.InRight? && !IsRed(t) && c.sib.Fork? && !c.sib.red && w == c.sib.n
      modifies this`root, nodes`left, nodes`right, nodes`parent, nodes`red
      ensures Lacking(next, c', t') && InOrder(Plug(c', t')) == InOrder(Plug(c, t))
      ensures c'.Top? || (c' == c.up && IsRed(t') == c.red)
    {
      hide At, Rb, CtxRb, BlackHeight, InOrder, Plug;
      See(c, t);
      Ascend(c, t);
      Descend(c.up, Filled(c, t));
      ghost var d, sib := InLeft(c.up, c.n, c.red, t), c.sib;
      See(d, sib);
      if !w.left.red && !w.right.red {
        BlackNephews(c, t);
        SetRed(w, true, d, sib);
        Ascend(d, sib.(red := true));
        next := temp.parent;
        c', t' := c.up, Fork(sib.(red := true), c.n, c.red, t);
        See(c', t');
      } else {
        next, c', t' := FarNephewRight(temp, w, c, t);
      }
    }

    method FarNephewRight(temp: Node, w0: Node, ghost c: Ctx, ghost t: Tree)
      returns (next: Node, ghost c': Ctx, ghost t': Tree)
      requires Lacking(temp, c, t) && c.InRight? && !IsRed(t) && c.sib.Fork? && !c.sib.red && w0 == c.sib.n
      requires IsRed(c.sib.r) || IsRed(c.sib.l)
      modifies this`root, nodes`left, nodes`right, nodes`parent, nodes`red
      ensures Lacking(next, c', t') && InOrder(Plug(c', t')) == InOrder(Plug(c, t)) && c'.Top?
    {
      hide At, Rb, CtxRb, BlackHeight, InOrder, Plug;
      var w := w0;
      ghost var d, sib := InLeft(c.up, c.n, c.red, t), c.sib;
      See(c, t);
      Ascend(c, t);
      Descend(c.up, Filled(c, t));
      See(d, sib);
      c' := c;
      if !w.left.red {
        NearNephew(c, t);
        Descend(d, sib);
        SetRed(w.right, false, InRight(d, sib.n, sib.red, sib.l), sib.r);
        Ascend(InRight(d, sib.n, sib.red, sib.l), sib.r.(red := false));
        sib := Fork(sib.l, sib.n, sib.red, sib.r.(red := false));
        SetRed(w, true, d, sib);
        sib := sib.(red := true);
        RotateLeftAt(w, d, sib);
        sib := RotatedLeft(sib);
        Ascend(d, sib);
        Descend(c.up, Fork(sib, c.n, c.red, t));
        c' := InRight(c.up, c.n, c.red, sib);
        See(c', t);
        w := temp.parent.left;
      }
      FarNephew(c', t);
      SetRed(w, temp.parent.red, d, sib);
      sib := sib.(red := c.red);
      Ascend(d, sib);
      ghost var p := Fork(sib, c.n, c.red, t);
      SetRed(temp.parent, false, c.up, p);
      p := p.(red := false);
      Descend(c.up, p);
      d := InLeft(c.up, c.n, false, t);
      Descend(d, sib);
      See(d, sib);
      SetRed(w.left, false, InLeft(d, sib.n, sib.red, sib.r), sib.l);
      Ascend(InLeft(d, sib.n, sib.red, sib.r), sib.l.(red := false));
      sib := Fork(sib.l.(red := false), sib.n, sib.red, sib.r);
      Ascend(d, sib);
      p := Fork(sib, c.n, false, t);
      RotateRightAt(temp.parent, c.up, p);
      p := RotatedRight(p);
      AscendAll(c.up, p);
      See(Top, Plug(c.up, p));
      TopPlug(Plug(c.up, p));
      next := root;
      c', t' := Top, Plug(c.up, p);
    }

    // The rebalancing loop of delete.
    method DeleteFix(temp0: Node, ghost c0: Ctx, ghost t0: Tree)
      requires Lacking(temp0, c0, t0)
      modifies this`root, this`shape, nodes`left, nodes`right, nodes`parent, nodes`red
      ensures Valid() && InOrder(shape) == InOrder(Plug(c0, t0))
    {
      var temp := temp0;
      ghost var c, t := c0, t0;
      hide At, Rb, CtxRb, BlackHeight, InOrder, Plug;
      See(c, t);
      while temp != root && !temp.red
        invariant nodes == old(nodes) && Lacking(temp, c, t)
        invariant InOrder(Plug(c, t)) == InOrder(Plug(c0, t0))
        invariant c.Top? <==> temp == root
        invariant temp.red == IsRed(t)
        decreases Measure(c, t)
      {
        See(c, t);
        SiblingIsReal(c, t);
        RootIsBlackAbove(c, t);
        if temp == temp.parent.left {
          var w := temp.parent.right;
          if w.red {
            w, c := RedSiblingLeft(temp, w, c, t);
          }
          temp, c, t := BlackSiblingLeft(temp, w, c, t);
        } else {
          var w := temp.parent.left;
          if w.red {
            w, c := RedSiblingRight(temp, w, c, t);
          }
          temp, c, t := BlackSiblingRight(temp, w, c, t);
        }
        See(c, t);
      }
      See(c, t);
      DeleteBalanced(c, t);
      SetBlack(temp, c, t);
      AscendAll(c, Blacken(t));
      shape := Plug(c, Blacken(t));
    }

    // Take subst, which has at most one child, out of its parent.
    method UnlinkLinks(subst: Node, temp: Node, parent: Node)
      requires subst.parent != null && (subst.parent.left == subst || subst.parent.right == subst)
      requires subst.parent.left != subst.parent.right && temp != subst.parent && temp != subst
      modifies subst.parent`left, subst.parent`right, temp`parent
      ensures temp.parent == parent
      ensures var p := old(subst.parent);
              && p.left == (if old(p.left) == subst then temp else old(p.left))
              && p.right == (if old(p.right) == subst then temp else old(p.right))
    {
      if subst == subst.parent.left {
        subst.parent.left := temp;
      } else {
        subst.parent.right := temp;
      }
      temp.parent := parent;
    }

    method Unlink(subst: Node, temp: Node, parent: Node, ghost c: Ctx, ghost t: Tree, ghost u: Tree)
      requires At(c, t) && !c.Top? && OnlyChild(t, u) && t.n == subst && temp == Root(u, sentinel)
      modifies this`nodes, c.n`left, c.n`right, temp`parent
      ensures nodes == old(nodes) - {subst} && temp in nodes
      ensures Near(c, u) && temp.parent == parent
    {
      hide At, Zip, TopOf, OnlyChild, Unlinked;
      See(c, t);
      UnlinkTop(c, t, u);
      ghost var h, ns := Snap(nodes), nodes;
      UnlinkLinks(subst, temp, parent);
      nodes := nodes - {subst};
      UnlinkSeen(c, t, u, ns, h);
      UnlinkedZip(c, t, u, sentinel, h, Snap(nodes));
    }

    lemma {:induction false} UnlinkTop(c: Ctx, t: Tree, u: Tree)
      requires At(c, t) && !c.Top? && OnlyChild(t, u)
      ensures TopOf(c, Root(t, sentinel)) == TopOf(c, Root(u, sentinel)) == root
      ensures c.n != t.n && Root(u, sentinel) != t.n && Root(u, sentinel) != c.n && Root(u, sentinel) in nodes
      ensures Zip(c, t, sentinel, Snap(nodes)) && t.Fork?
    {
      OnlyChildParts(t, u, sentinel, Snap(nodes));
    }

    lemma {:induction false} UnlinkSeen(c: Ctx, t: Tree, u: Tree, ns: set<Node>, h: Store)
      requires !c.Top? && t.Fork? && h.Keys == ns && nodes == ns - {t.n} && c.n in nodes
      requires forall n | n in nodes && n != c.n :: n.left == h[n].left && n.right == h[n].right
      requires forall n | n in nodes && n != Root(u, sentinel) :: n.parent == h[n].parent
      requires forall n | n in nodes :: n.red == h[n].red
      requires c.n.left == (if c.InLeft? then Root(u, sentinel) else h[c.n].left)
      requires c.n.right == (if c.InRight? then Root(u, sentinel) else h[c.n].right)
      ensures Unlinked(c, t, u, sentinel, h, Snap(nodes))
    {
    }

    // Put subst, which is not in the tree, in node's place.
    method ReplaceLinks(node: Node, subst: Node, ghost ns: set<Node>)
      requires node in ns && subst !in ns && sentinel in ns && node != sentinel
      requires node.left != null && node.left in ns && node.left != node
      requires node.right != null && node.right in ns && node.right != node
      requires node != root ==>
                 var p := node.parent;
                 p != null && p in ns && p != node && p != sentinel && p != node.left && p != node.right
                 && (p.left == node || p.right == node) && p.left != p.right
      modifies this`root, subst`left, subst`right, subst`parent, subst`red, ns`left, ns`right, ns`parent
      ensures subst.left == old(node.left) && subst.right == old(node.right)
      ensures subst.parent == old(node.parent) && subst.red == old(node.red)
      ensures root == if node == old(root) then subst else old(root)
      ensures var a, b, p := old(node.left), old(node.right), old(node.parent);
              && (a != sentinel ==> a.parent == subst) && (b != sentinel ==> b.parent == subst)
              && (node != old(root) ==>
                    && p.left == (if old(p.left) == node then subst else old(p.left))
                    && p.right == (if old(p.right) == node then subst else old(p.right)))
              && (forall n | n in ns && (node == old(root) || n != p) ::
                n.left == old(n.left) && n.right == old(n.right))
              && (forall n | n in ns && (n == sentinel || (n != a && n != b)) :: n.parent == old(n.parent))
    {
      subst.left := node.left;
      subst.right := node.right;
      subst.parent := node.parent;
      subst.red := node.red;
      if node == root {
        root := subst;
      } else if node == node.parent.left {
        node.parent.left := subst;
      } else {
        node.parent.right := subst;
      }
      if subst.left != sentinel {
        subst.left.parent := subst;
      }
      if subst.right != sentinel {
        subst.right.parent := subst;
      }
    }

    method Replace(node: Node, subst: Node, ghost c: Ctx, ghost red: bool, ghost a: Tree, ghost b: Tree)
      requires Near(InRight(c, node, red, a), b) && subst !in nodes
      modifies this`root, this`nodes, subst`left, subst`right, subst`parent, subst`red,
               nodes`left, nodes`right, nodes`parent
      ensures nodes == old(nodes) - {node} + {subst} && At(c, Fork(a, subst, red, b))
      ensures sentinel in nodes && sentinel.parent == old(sentinel.parent) && sentinel.red == old(sentinel.red)
    {
      hide Near, Zip, TopOf, ParentOk, Replaced;
      ReplaceCorner(c, node, subst, red, a, b);
      ghost var h, ns := Snap(nodes), nodes;
      ReplaceLinks(node, subst, nodes);
      nodes := nodes - {node} + {subst};
      ReplaceSeen(c, node, subst, a, b, ns, h);
      ReplacedZip(c, node, subst, red, a, b, sentinel, h, Snap(nodes));
    }

    lemma {:induction false} ReplaceCorner(c: Ctx, node: Node, subst: Node, red: bool, a: Tree, b: Tree)
      requires Near(InRight(c, node, red, a), b) && subst !in nodes
      ensures Zip(InRight(c, node, red, a), b, sentinel, Snap(nodes))
      ensures node in nodes && sentinel in nodes && node != sentinel && node.red == red
      ensures node.left == Root(a, sentinel) && Root(a, sentinel) in nodes && node.left != node
      ensures node.right == Root(b, sentinel) && Root(b, sentinel) in nodes && node.right != node
      ensures c.Top? <==> node == root
      ensures c.Top? ==> TopOf(c, subst) == subst
      ensures !c.Top? ==>
                var p := c.n;
                && node.parent == p && p in nodes && p != node && p != sentinel && p != node.left && p != node.right
                && p.left != p.right && (p.left == node <==> c.InLeft?) && (p.right == node <==> c.InRight?)
                && TopOf(c, subst) == root
      ensures a.Fork? ==> a.n != sentinel
      ensures b.Fork? ==> b.n != sentinel
    {
      ReplacedApart(c, node, subst, red, a, b, sentinel, Snap(nodes));
      TopIn(c, node);
      if !c.Top? {
        assert CtxDistinct(c);
      }
    }

    lemma {:induction false} ReplaceSeen(c: Ctx, x: Node, m: Node, a: Tree, b: Tree, ns: set<Node>, h: Store)
      requires h.Keys == ns && x in ns && m !in ns && nodes == ns - {x} + {m}
      requires m.left == h[x].left && m.right == h[x].right && m.parent == h[x].parent && m.red == h[x].red
      requires forall n | n in ns && (c.Top? || n != c.n) :: n.left == h[n].left && n.right == h[n].right
      requires forall n | n in ns && (a.Leaf? || n != a.n) && (b.Leaf? || n != b.n) :: n.parent == h[n].parent
      requires forall n | n in ns :: n.red == h[n].red
      requires a.Fork? ==> a.n in nodes && a.n.parent == m
      requires b.Fork? ==> b.n in nodes && b.n.parent == m
      requires !c.Top? ==> c.n in ns && c.n != x
      requires c.InLeft? ==> c.n.left == m && c.n.right == h[c.n].right
      requires c.InRight? ==> c.n.right == m && c.n.left == h[c.n].left
      ensures Replaced(c, x, m, a, b, h, Snap(nodes))
    {
    }

    lemma {:induction false} DescendTo(e: Ctx, c: Ctx, t: Tree)
      requires At(c, Plug(e, t))
      ensures At(Compose(e, c), t)
    {
      ZipDownTo(e, c, t, sentinel, Snap(nodes));
      ComposeTop(e, c, t);
    }

    lemma {:induction false} ComposeTop(e: Ctx, c: Ctx, t: Tree)
      ensures TopOf(Compose(e, c), Root(t, sentinel)) == TopOf(c, Root(Plug(e, t), sentinel))
      decreases e
    {
      if !e.Top? { ComposeTop(e.up, c, Filled(e, t)); }
    }

    lemma {:induction false} NearUp(e: Ctx, c: Ctx, t: Tree)
      requires Near(Compose(e, c), t) && (t.Fork? && !e.Top? ==> t.n.parent == e.n)
      ensures Near(c, Plug(e, t))
    {
      ZipUpTo(e, c, t, sentinel, Snap(nodes));
      ComposeTop(e, c, t);
    }

    // The leftmost node below node.
    method Min(node: Node, ghost c: Ctx, ghost t: Tree) returns (m: Node, ghost e: Ctx, ghost u: Tree)
      requires At(c, t) && t.Fork? && t.n == node
      ensures LeftSpine(e) && Plug(e, u) == t && u.Fork? && u.l.Leaf? && u.n == m && At(Compose(e, c), u)
      ensures InOrder(t) != [] && m == InOrder(t)[0]
    {
      m, e, u := node, Top, t;
      See(c, t);
      while m.left != sentinel
        invariant LeftSpine(e) && Plug(e, u) == t && u.Fork? && u.n == m && At(Compose(e, c), u)
        invariant m.left == Root(u.l, sentinel) && (u.l.Fork? ==> u.l.n != sentinel)
        decreases u
      {
        hide At;
        Descend(Compose(e, c), u);
        m := m.left;
        e, u := InLeft(e, u.n, u.red, u.r), u.l;
        See(Compose(e, c), u);
      }
      SpineInOrder(e, u);
    }

    method DeleteRoot(node: Node, temp: Node, ghost u: Tree)
      requires Valid() && OnlyChild(shape, u) && shape.n == node && temp == Root(u, sentinel)
      modifies this`root, this`shape, this`nodes, temp`red, node`left, node`right, node`parent, node`key
      ensures Valid() && nodes == old(nodes) - {node} && shape == Blacken(u)
      ensures node.left == null && node.right == null && node.parent == null && node.key == 0
    {
      hide Zip, Rb, OnlyChild, BlackHeight;
      See(Top, shape);
      RootCorner(u);
      ghost var h, t := Snap(nodes), shape;
      root := temp;
      temp.red := false;
      node.left := null;
      node.right := null;
      node.parent := null;
      node.key := 0;
      nodes := nodes - {node};
      shape := Blacken(u);
      RootGoneZip(t, u, sentinel, h, Snap(nodes));
    }

    lemma {:induction false} RootCorner(u: Tree)
      requires Valid() && OnlyChild(shape, u)
      ensures Root(u, sentinel) in nodes && Root(u, sentinel) != shape.n
      ensures Rb(Blacken(u)) && !IsRed(Blacken(u)) && Root(Blacken(u), sentinel) == Root(u, sentinel)
    {
      OnlyChildParts(shape, u, sentinel, Snap(nodes));
      UnlinkBalance(Top, shape, u);
    }

    // node has at most one child and is not the root.
    method DeleteNear(node: Node, temp: Node, ghost c: Ctx, ghost t: Tree, ghost u: Tree)
      requires At(c, t) && !c.Top? && OnlyChild(t, u) && t.n == node && temp == Root(u, sentinel)
      requires Valid() && shape == Plug(c, t)
      modifies this`root, this`shape, this`nodes, nodes`left, nodes`right, nodes`parent, nodes`red, node`key
      ensures Valid() && nodes == old(nodes) - {node} && InOrder(shape) == InOrder(Plug(c, u))
      ensures node.left == null && node.right == null && node.parent == null && node.key == 0
    {
      hide At, Near, Rb, CtxRb, BlackHeight, InOrder, Plug;
      See(c, t);
      OnlyChildBalance(c, t, u);
      var red := node.red;
      Unlink(node, temp, node.parent, c, t, u);
      NearAt(c, u);
      Clear(node);
      if red {
        AscendAll(c, u);
        shape := Plug(c, u);
      } else {
        DeleteFix(temp, c, u);
      }
    }

    lemma {:induction false} OnlyChildBalance(c: Ctx, t: Tree, u: Tree)
      requires OnlyChild(t, u) && Rb(Plug(c, t)) && !IsRed(Plug(c, t))
      ensures t.red ==> Rb(Plug(c, u)) && !IsRed(Plug(c, u))
      ensures !t.red ==> OneShort(c, u)
    {
      PlugRb(c, t);
      UnlinkBalance(c, t, u);
    }

    lemma {:induction false} NearAt(c: Ctx, t: Tree)
      requires Near(c, t) && (!c.Top? && t.Fork? ==> t.n.parent == c.n)
      ensures At(c, t)
    {
    }

    // The removed node's links and key are wiped.
    method Clear(node: Node)
      modifies node`left, node`right, node`parent, node`key
      ensures node.left == null && node.right == null && node.parent == null && node.key == 0
    {
      node.left := null;
      node.right := null;
      node.parent := null;
      node.key := 0;
    }

    // subst, the leftmost node on node's right, moves up into node's place.
    method MoveUpInto(node: Node, subst: Node, temp: Node, ghost c: Ctx, ghost t: Tree, ghost e: Ctx, ghost u: Tree)
      requires t.Fork? && t.n == node && u.Fork? && u.l.Leaf? && u.n == subst && temp == Root(u.r, sentinel)
      requires At(Compose(e, InRight(c, node, t.red, t.l)), u)
      modifies this`root, this`nodes, nodes`left, nodes`right, nodes`parent, nodes`red
      ensures nodes == old(nodes) - {node} && temp in nodes && At(Compose(e, InRight(c, subst, t.red, t.l)), u.r)
      ensures temp.parent == (if e.Top? then subst else e.n) && sentinel.red == old(sentinel.red)
    {
      hide At, Near, Rb, CtxRb, BlackHeight, InOrder, Plug, Compose;
      ghost var d := InRight(c, node, t.red, t.l);
      See(Compose(e, d), u);
      ComposeInner(e, d, u);
      Unlink(subst, temp, if subst.parent == node then subst else subst.parent, Compose(e, d), u, u.r);
      NearUp(e, d, u.r);
      Replace(node, subst, c, t.red, t.l, Plug(e, u.r));
      Descend(c, Fork(t.l, subst, t.red, Plug(e, u.r)));
      d := InRight(c, subst, t.red, t.l);
      DescendTo(e, d, u.r);
      ComposeFrame(e, d);
      See(Compose(e, d), u.r);
    }

    // node has two children: the leftmost node on its right takes its place.
    method DeleteFar(node: Node, ghost c: Ctx, ghost t: Tree) returns (ghost at: nat)
      requires At(c, t) && t.Fork? && t.n == node && t.l.Fork? && t.r.Fork?
      requires Valid() && shape == Plug(c, t)
      modifies this`root, this`shape, this`nodes, nodes`left, nodes`right, nodes`parent, nodes`red, node`key
      ensures Valid() && nodes == old(nodes) - {node}
      ensures Without(old(InOrder(shape)), at, node, InOrder(shape))
      ensures node.left == null && node.right == null && node.parent == null && node.key == 0
    {
      hide At, Rb, CtxRb, BlackHeight, InOrder, Plug, Compose, Without, OneShort;
      See(c, t);
      Descend(c, t);
      var subst;
      ghost var d, e, u := InRight(c, node, t.red, t.l), Top, Leaf;
      subst, e, u := Min(node.right, d, t.r);
      See(Compose(e, d), u);
      ReplaceBalance(c, t.l, node, t.red, e, u);
      at := ReplaceOrder(c, t.l, node, t.red, e, u);
      var left, right := subst.left, subst.right;
      var temp := if left != sentinel then left else right;
      var red := subst.red;
      MoveUpInto(node, subst, temp, c, t, e, u);
      d := InRight(c, subst, t.red, t.l);
      ComposeFrame(e, d);
      Clear(node);
      if red {
        AscendAll(Compose(e, d), u.r);
        shape := Plug(Compose(e, d), u.r);
      } else {
        DeleteFix(temp, Compose(e, d), u.r);
      }
    }

    lemma {:induction false} ComposeFrame(e: Ctx, d: Ctx)
      requires !d.Top?
      ensures !Compose(e, d).Top? && Compose(e, d).n == if e.Top? then d.n else e.n
    {
    }

    lemma {:induction false} ComposeInner(e: Ctx, d: Ctx, t: Tree)
      requires !d.Top? && At(Compose(e, d), t)
      ensures !Compose(e, d).Top? && Compose(e, d).n == if e.Top? then d.n else e.n
      ensures !e.Top? ==> e.n != d.n
      ensures t.Fork? ==> t.n != d.n
    {
      ComposeNodes(e, d);
      if !e.Top? {
        ComposeNodes(e.up, d);
      }
    }

    lemma {:induction false} ComposeNodes(e: Ctx, d: Ctx)
      requires !d.Top?
      ensures d.n in CtxNodes(Compose(e, d))
    {
      if !e.Top? { ComposeNodes(e.up, d); }
    }

    method Delete(node: Node) returns (ghost at: nat)
      requires Valid() && node in nodes && node != sentinel
      modifies this`root, this`shape, this`nodes, nodes`left, nodes`right, nodes`parent, nodes`red, node`key
      ensures Valid() && nodes == old(nodes) - {node}
      ensures Without(old(Order()), at, node, Order())
      ensures KeysOf(Order()) == old(KeysOf(Order()))[..at] + old(KeysOf(Order()))[at + 1..]
      ensures node.left == null && node.right == null && node.parent == null && node.key == 0
    {
      hide At, Rb, InOrder, Without;
      Contents();
      ghost var order, ks := Order(), KeysOf(Order());
      at := Remove(node);
      KeysWithout(order, at, node, Order(), ks);
    }

    method Remove(node: Node) returns (ghost at: nat)
      requires Valid() && node in nodes && node != sentinel
      modifies this`root, this`shape, this`nodes, nodes`left, nodes`right, nodes`parent, nodes`red, node`key
      ensures Valid() && nodes == old(nodes) - {node}
      ensures Without(old(Order()), at, node, Order())
      ensures node.left == null && node.right == null && node.parent == null && node.key == 0
    {
      hide At, Rb, CtxRb, BlackHeight, InOrder, Plug;
      ghost var c, t := LocateNode(node);
      See(c, t);
      var temp;
      if node.left == sentinel {
        temp := node.right;
      } else if node.right == sentinel {
        temp := node.left;
      } else {
        at := DeleteFar(node, c, t);
        return;
      }
      ghost var u := if t.l.Leaf? then t.r else t.l;
      at := UnlinkOrder(c, t, u);
      if node == root {
        TopPlug(t);
        TopPlug(u);
        BlackenInOrder(u);
        DeleteRoot(node, temp, u);
      } else {
        DeleteNear(node, temp, c, t, u);
      }
    }

    lemma {:induction false} BlackenInOrder(t: Tree)
      ensures InOrder(Blacken(t)) == InOrder(t)
    {
    }

    lemma {:induction false} LocateNode(node: Node) returns (c: Ctx, t: Tree)
      requires Valid() && node in nodes && node != sentinel
      ensures At(c, t) && t.Fork? && t.n == node && Plug(c, t) == shape
    {
      c, t := Locate(Top, shape, node);
      ZipDown(c, t, sentinel, Snap(nodes));
    }

    // ----- walking the tree -----

    // The least node, or null in an empty tree.
    method First() returns (node: Node?)
      requires Valid()
      ensures node == if Order() == [] then null else Order()[0]
    {
      hide At, Rb, InOrder, Plug;
      See(Top, shape);
      EmptyOrder(shape);
      if root == sentinel {
        return null;
      }
      ghost var e, u;
      node, e, u := Min(root, Top, shape);
    }

    // The node after node in order, or null; i is node's position.
    method Next(node: Node) returns (next: Node?, ghost i: nat)
      requires Valid() && node in nodes && node != sentinel
      ensures i < |Order()| && Order()[i] == node
      ensures next == if i + 1 < |Order()| then Order()[i + 1] else null
    {
      hide At, Rb, InOrder, Plug;
      ghost var c, t := LocateNode(node);
      See(c, t);
      PositionOf(c, t);
      i := |Before(c)| + |InOrder(t.l)|;
      if node.right != sentinel {
        Descend(c, t);
        ghost var e, u;
        next, e, u := Min(node.right, InRight(c, t.n, t.red, t.l), t.r);
        return;
      }
      RightEmpty(t);
      var cur := node;
      while true
        invariant At(c, t) && t.Fork? && t.n == cur && Plug(c, t) == shape
        invariant i + 1 == |Before(c)| + |InOrder(t)|
        decreases Depth(c)
      {
        See(c, t);
        PositionAbove(c, t);
        var parent := cur.parent;
        if cur == root {
          return null, i;
        }
        if cur == parent.left {
          return parent, i;
        }
        Ascend(c, t);
        cur := parent;
        c, t := c.up, Filled(c, t);
      }
    }

    lemma {:induction false} RightEmpty(t: Tree)
      requires t.Fork? && t.r.Leaf?
      ensures |InOrder(t)| == |InOrder(t.l)| + 1
    {
    }

    // Where the root of t and the first node on its right are in the order.
    lemma {:induction false} PositionOf(c: Ctx, t: Tree)
      requires t.Fork?
      ensures var order, i := InOrder(Plug(c, t)), |Before(c)| + |InOrder(t.l)|;
              && i < |order| && order[i] == t.n
              && (InOrder(t.r) != [] ==> i + 1 < |order| && order[i + 1] == InOrder(t.r)[0])
    {
      PlugInOrder(c, t);
    }

    // Where the node above t is relative to t's last node.
    lemma {:induction false} PositionAbove(c: Ctx, t: Tree)
      ensures var order, j := InOrder(Plug(c, t)), |Before(c)| + |InOrder(t)|;
              && j <= |order| && (c.Top? ==> j == |order|)
              && (c.InLeft? ==> j < |order| && order[j] == c.n)
              && (c.InRight? ==> j == |Before(c.up)| + |InOrder(Filled(c, t))|)
    {
      PlugInOrder(c, t);
    }

    // From the least node on, following Next visits every node once, in order.
    method Walk() returns (visited: seq<Node>)
      requires Valid()
      ensures visited == Order()
    {
      hide At, Rb, InOrder, Plug;
      visited := [];
      See(Top, shape);
      TopPlug(shape);
      EmptyOrder(shape);
      if root == sentinel {
        return;
      }
      ghost var e, u, i;
      var cur: Node?;
      cur, e, u := Min(root, Top, shape);
      Contents();
      while cur != null
        invariant visited <= Order()
        invariant cur == if |visited| < |Order()| then Order()[|visited|] else null
        decreases |Order()| - |visited|
      {
        assert cur == Order()[|visited|] && cur in Order();
        Contents();
        visited := visited + [cur];
        cur, i := Next(cur);
      }
    }

    lemma {:induction false} EmptyOrder(t: Tree)
      ensures InOrder(t) == [] <==> t.Leaf?
    {
    }

    // A node of the tree has children, if only the sentinel.
    lemma {:induction false} LinksOf(node: Node)
      requires Valid() && node in nodes && node != sentinel
      ensures node.left != null && node.right != null
    {
      hide At, Rb, InOrder, Plug;
      var c, t := LocateNode(node);
      See(c, t);
    }

    // The order lists the tree's nodes, each once.
    lemma {:induction false} Contents()
      requires Valid()
      ensures forall n :: n in Order() <==> n in nodes && n != sentinel
      ensures forall i, j | 0 <= i < j < |Order()| :: Order()[i] != Order()[j]
      ensures sentinel in nodes
    {
      OrderDistinct(shape);
      forall n ensures n in Order() <==> n in nodes && n != sentinel {
        OrderNodes(shape, n);
      }
    }
  }

  lemma {:induction false} KeysWithout(order: seq<Node>, at: nat, node: Node, rest: seq<Node>, ks: seq<Key>)
    requires Without(order, at, node, rest) && |ks| == |order|
    requires forall i, j | 0 <= i < j < |order| :: order[i] != order[j]
    requires forall i | 0 <= i < |order| && order[i] != node :: order[i].key == ks[i]
    ensures KeysOf(rest) == ks[..at] + ks[at + 1..]
  {
    hide KeysOf;
  }

  lemma {:induction false} OrderNodes(t: Tree, n: Node)
    ensures n in InOrder(t) <==> n in Nodes(t)
  {
    if t.Fork? {
      OrderNodes(t.l, n);
      OrderNodes(t.r, n);
    }
  }

  lemma {:induction false} OrderDistinct(t: Tree)
    requires Distinct(t)
    ensures forall i, j | 0 <= i < j < |InOrder(t)| :: InOrder(t)[i] != InOrder(t)[j]
  {
    if t.Fork? {
      OrderDistinct(t.l);
      OrderDistinct(t.r);
      var l, r := InOrder(t.l), InOrder(t.r);
      forall i, j | 0 <= i < j < |InOrder(t)| ensures InOrder(t)[i] != InOrder(t)[j] {
        if i < |l| { OrderNodes(t.l, InOrder(t)[i]); }
        if i > |l| { OrderNodes(t.r, InOrder(t)[i]); }
        if j < |l| { OrderNodes(t.l, InOrder(t)[j]); }
        if j > |l| { OrderNodes(t.r, InOrder(t)[j]); }
      }
    }
  }
}
