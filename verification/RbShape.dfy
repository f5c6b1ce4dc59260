/** The ghost side of the intrusive red-black tree: trees, one-hole contexts,
    the red-black rules on both, and the predicates that tie them to the links
    stored in the nodes. */
module RbShape {

  // Keys are unsigned machine words.
  const KEY_RANGE: int := 0x1_0000_0000_0000_0000
  const HALF_RANGE: int := 0x8000_0000_0000_0000
  type Key = k: int | 0 <= k < KEY_RANGE

  // An event is identified with the timer node embedded in it, so the
  // event's timer_set flag lives next to the tree links.
  class Node {
    var key: Key
    var left: Node?
    var right: Node?
    var parent: Node?
    var red: bool
    var timerSet: bool

    constructor ()
      ensures !timerSet && left == null && right == null && parent == null
    {
      key, left, right, parent, red, timerSet := 0, null, null, null, false, false;
    }
  }

  datatype Tree = Leaf | Fork(l: Tree, n: Node, red: bool, r: Tree)

  // A tree with one subtree missing, from the hole upwards.
  datatype Ctx =
    | Top
    | InLeft(up: Ctx, n: Node, red: bool, sib: Tree)
    | InRight(up: Ctx, n: Node, red: bool, sib: Tree)

  ghost function Plug(c: Ctx, t: Tree): Tree
    decreases c
  {
    match c
    case Top => t
    case InLeft(up, n, red, sib) => Plug(up, Fork(t, n, red, sib))
    case InRight(up, n, red, sib) => Plug(up, Fork(sib, n, red, t))
  }

  // Compose(c, d): c's outermost frame sits in d's hole.
  ghost function Compose(c: Ctx, d: Ctx): Ctx {
    match c
    case Top => d
    case InLeft(up, n, red, sib) => InLeft(Compose(up, d), n, red, sib)
    case InRight(up, n, red, sib) => InRight(Compose(up, d), n, red, sib)
  }

  ghost function InOrder(t: Tree): seq<Node> {
    match t
    case Leaf => []
    case Fork(l, n, _, r) => InOrder(l) + [n] + InOrder(r)
  }

  ghost function Before(c: Ctx): seq<Node> {
    match c
    case Top => []
    case InLeft(up, n, _, sib) => Before(up)
    case InRight(up, n, _, sib) => Before(up) + InOrder(sib) + [n]
  }

  ghost function After(c: Ctx): seq<Node> {
    match c
    case Top => []
    case InLeft(up, n, _, sib) => [n] + InOrder(sib) + After(up)
    case InRight(up, n, _, sib) => After(up)
  }

  ghost function Nodes(t: Tree): set<Node> {
    match t
    case Leaf => {}
    case Fork(l, n, _, r) => Nodes(l) + {n} + Nodes(r)
  }

  ghost function CtxNodes(c: Ctx): set<Node> {
    if c.Top? then {} else CtxNodes(c.up) + {c.n} + Nodes(c.sib)
  }

  ghost function Size(t: Tree): nat {
    if t.Leaf? then 0 else Size(t.l) + 1 + Size(t.r)
  }

  ghost function Depth(c: Ctx): nat {
    if c.Top? then 0 else 1 + Depth(c.up)
  }

  // ----- the red-black rules -----

  ghost predicate IsRed(t: Tree) {
    t.Fork? && t.red
  }

  ghost function BlackHeight(t: Tree): nat {
    if t.Leaf? then 0 else BlackHeight(t.l) + if t.red then 0 else 1
  }

  // No red-red edge and equal black counts everywhere inside t.
  ghost predicate Rb(t: Tree) {
    t.Fork? ==>
      && Rb(t.l) && Rb(t.r)
      && BlackHeight(t.l) == BlackHeight(t.r)
      && (t.red ==> !IsRed(t.l) && !IsRed(t.r))
  }

  // c may be filled with a tree of black height h whose root is red or not as
  // childRed says. At the very top only a black root will do.
  ghost predicate CtxRb(c: Ctx, h: nat, childRed: bool) {
    if c.Top? then !childRed
    else
      && Rb(c.sib) && BlackHeight(c.sib) == h
      && (c.red ==> !IsRed(c.sib) && !childRed)
      && CtxRb(c.up, h + (if c.red then 0 else 1), c.red)
  }

  // The number of black nodes on the path from the hole to the root.
  ghost function BlackDepth(c: Ctx): nat {
    if c.Top? then 0 else BlackDepth(c.up) + if c.red then 0 else 1
  }

  ghost function Blacken(t: Tree): Tree {
    if t.Leaf? then Leaf else t.(red := false)
  }

  // ----- no node occurs twice -----

  ghost predicate Distinct(t: Tree) {
    t.Fork? ==>
      && t.n !in Nodes(t.l) && t.n !in Nodes(t.r) && Nodes(t.l) !! Nodes(t.r)
      && Distinct(t.l) && Distinct(t.r)
  }

  ghost predicate CtxDistinct(c: Ctx) {
    !c.Top? ==>
      && c.n !in CtxNodes(c.up) && c.n !in Nodes(c.sib) && CtxNodes(c.up) !! Nodes(c.sib)
      && CtxDistinct(c.up) && Distinct(c.sib)
  }

  ghost function Root(t: Tree, s: Node): Node {
    if t.Leaf? then s else t.n
  }

  // The root of the whole tree when hole is the root of the missing subtree.
  ghost function TopOf(c: Ctx, hole: Node): Node
    decreases c
  {
    if c.Top? then hole else TopOf(c.up, c.n)
  }

  // ----- the links stored in the nodes -----

  datatype Cell = Cell(left: Node?, right: Node?, parent: Node?, red: bool)

  // The stored links of some nodes at one moment.
  type Store = map<Node, Cell>

  ghost function Snap(ns: set<Node>): (h: Store)
    reads ns`left, ns`right, ns`parent, ns`red
    ensures h.Keys == ns
  {
    map n | n in ns :: Cell(n.left, n.right, n.parent, n.red)
  }

  // Child links and colours of t's nodes.
  ghost predicate Down(t: Tree, s: Node, h: Store) {
    t.Fork? ==>
      && t.n in h && h[t.n].left == Root(t.l, s) && h[t.n].right == Root(t.r, s) && h[t.n].red == t.red
      && Down(t.l, s, h) && Down(t.r, s, h)
  }

  ghost predicate ParentIs(t: Tree, p: Node, h: Store) {
    t.Fork? ==> t.n in h && h[t.n].parent == p
  }

  // Parent links of every node of t but its root.
  ghost predicate Up(t: Tree, h: Store) {
    t.Fork? ==>
      ParentIs(t.l, t.n, h) && ParentIs(t.r, t.n, h) && Up(t.l, h) && Up(t.r, h)
  }

  ghost predicate CtxDown(c: Ctx, hole: Node, s: Node, h: Store)
    decreases c
  {
    !c.Top? ==>
      && c.n in h && h[c.n].red == c.red
      && (if c.InLeft? then h[c.n].left == hole && h[c.n].right == Root(c.sib, s)
          else h[c.n].left == Root(c.sib, s) && h[c.n].right == hole)
      && Down(c.sib, s, h) && CtxDown(c.up, c.n, s, h)
  }

  ghost predicate CtxUp(c: Ctx, h: Store) {
    !c.Top? ==>
      && ParentIs(c.sib, c.n, h) && Up(c.sib, h)
      && (!c.up.Top? ==> c.n in h && h[c.n].parent == c.up.n)
      && CtxUp(c.up, h)
  }

  // h agrees with t inside c, but for the parent link of t's root.
  ghost predicate Zip(c: Ctx, t: Tree, s: Node, h: Store) {
    && Distinct(t) && CtxDistinct(c) && Nodes(t) !! CtxNodes(c)
    && s !in Nodes(t) && s !in CtxNodes(c)
    && h.Keys == Nodes(t) + CtxNodes(c) + {s}
    && Down(t, s, h) && Up(t, h) && CtxDown(c, Root(t, s), s, h) && CtxUp(c, h)
  }

  ghost predicate ParentOk(c: Ctx, t: Tree, h: Store) {
    !c.Top? ==> ParentIs(t, c.n, h)
  }

  // ----- frames -----

  ghost predicate SameDown(ns: set<Node>, h: Store, k: Store) {
    forall n | n in ns && n in h ::
      n in k && k[n].left == h[n].left && k[n].right == h[n].right && k[n].red == h[n].red
  }

  ghost predicate SameUp(ns: set<Node>, h: Store, k: Store) {
    forall n | n in ns && n in h :: n in k && k[n].parent == h[n].parent
  }

  lemma {:induction false} DownFrame(t: Tree, s: Node, h: Store, k: Store)
    requires Down(t, s, h) && SameDown(Nodes(t), h, k)
    ensures Down(t, s, k)
  {
    if t.Fork? {
      DownFrame(t.l, s, h, k);
      DownFrame(t.r, s, h, k);
    }
  }

  lemma {:induction false} UpFrame(t: Tree, h: Store, k: Store)
    requires Up(t, h) && SameUp(Nodes(t), h, k)
    ensures Up(t, k)
  {
    if t.Fork? {
      UpFrame(t.l, h, k);
      UpFrame(t.r, h, k);
    }
  }

  lemma {:induction false} CtxDownFrame(c: Ctx, hole: Node, s: Node, h: Store, k: Store)
    requires CtxDown(c, hole, s, h) && SameDown(CtxNodes(c), h, k)
    ensures CtxDown(c, hole, s, k)
    decreases c
  {
    if !c.Top? {
      CtxDownFrame(c.up, c.n, s, h, k);
      DownFrame(c.sib, s, h, k);
    }
  }

  lemma {:induction false} CtxUpFrame(c: Ctx, h: Store, k: Store)
    requires CtxUp(c, h) && SameUp(CtxNodes(c), h, k)
    ensures CtxUp(c, k)
  {
    if !c.Top? {
      CtxUpFrame(c.up, h, k);
      UpFrame(c.sib, h, k);
    }
  }

  // ----- moving the hole -----

  ghost function Filled(c: Ctx, t: Tree): Tree
    requires !c.Top?
  {
    if c.InLeft? then Fork(t, c.n, c.red, c.sib) else Fork(c.sib, c.n, c.red, t)
  }

  lemma {:induction false} MoveUp(c: Ctx, t: Tree, s: Node, h: Store)
    requires !c.Top? && Zip(c, t, s, h) && ParentIs(t, c.n, h)
    ensures Zip(c.up, Filled(c, t), s, h) && ParentOk(c.up, Filled(c, t), h)
  {
  }

  lemma {:induction false} MoveDown(c: Ctx, t: Tree, s: Node, h: Store)
    requires t.Fork? && Zip(c, t, s, h) && ParentOk(c, t, h)
    ensures Zip(InLeft(c, t.n, t.red, t.r), t.l, s, h) && ParentIs(t.l, t.n, h)
    ensures Zip(InRight(c, t.n, t.red, t.l), t.r, s, h) && ParentIs(t.r, t.n, h)
  {
  }

  lemma {:induction false} ZipUp(c: Ctx, t: Tree, s: Node, h: Store)
    requires Zip(c, t, s, h) && ParentOk(c, t, h)
    ensures Zip(Top, Plug(c, t), s, h)
    ensures Root(Plug(c, t), s) == TopOf(c, Root(t, s))
    decreases c
  {
    if !c.Top? {
      MoveUp(c, t, s, h);
      ZipUp(c.up, Filled(c, t), s, h);
    }
  }

  lemma {:induction false} ZipDown(c: Ctx, t: Tree, s: Node, h: Store)
    requires Zip(Top, Plug(c, t), s, h)
    ensures Zip(c, t, s, h) && ParentOk(c, t, h)
    ensures Root(Plug(c, t), s) == TopOf(c, Root(t, s))
    decreases c
  {
    if !c.Top? {
      ZipDown(c.up, Filled(c, t), s, h);
      MoveDown(c.up, Filled(c, t), s, h);
    }
  }

  lemma {:induction false} PlugRb(c: Ctx, t: Tree)
    ensures Rb(t) && CtxRb(c, BlackHeight(t), IsRed(t)) <==> Rb(Plug(c, t)) && !IsRed(Plug(c, t))
    decreases c
  {
    if !c.Top? { PlugRb(c.up, Filled(c, t)); }
  }

  lemma {:induction false} PlugInOrder(c: Ctx, t: Tree)
    ensures InOrder(Plug(c, t)) == Before(c) + InOrder(t) + After(c)
    decreases c
  {
    if !c.Top? { PlugInOrder(c.up, Filled(c, t)); }
  }

  lemma {:induction false} TopIn(c: Ctx, hole: Node)
    ensures c.Top? ==> TopOf(c, hole) == hole
    ensures !c.Top? ==> TopOf(c, hole) in CtxNodes(c)
    decreases c
  {
    if !c.Top? { TopIn(c.up, c.n); }
  }
}
