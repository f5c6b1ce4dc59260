/** The colour arithmetic of the two rebalancing loops, on trees and contexts. */
module RbBalance {
  import opened Basics
  import opened RbShape

  // c with the colour of its innermost node and its sibling subtree replaced.
  ghost function With(c: Ctx, red: bool, sib: Tree): Ctx
    requires !c.Top?
  {
    if c.InLeft? then InLeft(c.up, c.n, red, sib) else InRight(c.up, c.n, red, sib)
  }

  // ----- insert -----

  // t's root is red and may have a red parent; otherwise all rules hold.
  ghost predicate RedRed(c: Ctx, t: Tree) {
    t.Fork? && t.red && Rb(t) && CtxRb(c, BlackHeight(t), false)
  }

  lemma {:induction false} FreshRed(c: Ctx, node: Node, t: Tree)
    requires Plug(c, Leaf) == t && Rb(t) && !IsRed(t)
    ensures RedRed(c, Fork(Leaf, node, true, Leaf))
  {
    PlugRb(c, Leaf);
  }

  lemma {:induction false} HasGrandparent(c: Ctx, t: Tree)
    requires RedRed(c, t) && !c.Top? && c.red
    ensures !c.up.Top? && !c.up.red
  {
    assert CtxRb(c.up, BlackHeight(t), true);
  }

  // The uncle is red: push the clash two levels up.
  lemma {:induction false} RedUncle(c: Ctx, t: Tree)
    requires RedRed(c, t) && !c.Top? && c.red && !c.up.Top? && IsRed(c.up.sib)
    ensures RedRed(c.up.up, Filled(With(c.up, true, Blacken(c.up.sib)), Filled(With(c, false, c.sib), t)))
  {
    assert CtxRb(c.up, BlackHeight(t), true);
    assert Rb(Blacken(c.up.sib)) && Rb(Filled(With(c, false, c.sib), t));
  }

  // The node is the inner grandchild: one rotation makes it the outer one.
  lemma {:induction false} InnerToOuter(c: Ctx, t: Tree)
    requires RedRed(c, t) && !c.Top? && c.red
    ensures c.InRight? ==> RedRed(InLeft(c.up, t.n, true, t.r), Fork(c.sib, c.n, true, t.l))
    ensures c.InLeft? ==> RedRed(InRight(c.up, t.n, true, t.l), Fork(t.r, c.n, true, c.sib))
  {
  }

  // The outer case: recolouring and one rotation remove the clash.
  lemma {:induction false} OuterDone(c: Ctx, t: Tree)
    requires RedRed(c, t) && !c.Top? && c.red && !c.up.Top? && !IsRed(c.up.sib)
    ensures c.InLeft? ==> RedRed(InLeft(c.up.up, c.n, false, Fork(c.sib, c.up.n, true, c.up.sib)), t)
    ensures c.InRight? ==> RedRed(InRight(c.up.up, c.n, false, Fork(c.up.sib, c.up.n, true, c.sib)), t)
  {
    assert CtxRb(c.up, BlackHeight(t), true);
    assert Rb(Fork(c.sib, c.up.n, true, c.up.sib)) && Rb(Fork(c.up.sib, c.up.n, true, c.sib));
  }

  lemma {:induction false} InsertBalanced(c: Ctx, t: Tree)
    requires RedRed(c, t) && (c.Top? || !c.red)
    ensures Rb(Blacken(Plug(c, t))) && (!c.Top? ==> !IsRed(Plug(c, t)))
  {
    PlugRb(c, t);
  }

  // ----- delete -----

  // t is one black node short of what c needs, unless its root is red, in
  // which case blackening the root makes up for it.
  ghost predicate OneShort(c: Ctx, t: Tree) {
    && Rb(Blacken(t))
    && CtxRb(c, BlackHeight(Blacken(t)) + (if IsRed(t) then 0 else 1), false)
  }

  // A black subtree that is one short has a real sibling, and a red sibling
  // has two real children: the loop never reads the sentinel's links.
  lemma {:induction false} SiblingIsReal(c: Ctx, t: Tree)
    requires OneShort(c, t) && !c.Top? && !IsRed(t)
    ensures c.sib.Fork?
    ensures IsRed(c.sib) ==> !c.red && c.sib.l.Fork? && c.sib.r.Fork? && !IsRed(c.sib.l) && !IsRed(c.sib.r)
  {
  }

  lemma {:induction false} RedSibling(c: Ctx, t: Tree)
    requires OneShort(c, t) && !c.Top? && !IsRed(t) && IsRed(c.sib)
    ensures c.InLeft? ==> OneShort(InLeft(InLeft(c.up, c.sib.n, false, c.sib.r), c.n, true, c.sib.l), t)
    ensures c.InRight? ==> OneShort(InRight(InRight(c.up, c.sib.n, false, c.sib.l), c.n, true, c.sib.r), t)
    ensures !IsRed(c.sib.l) && !IsRed(c.sib.r)
  {
  }

  lemma {:induction false} BlackNephews(c: Ctx, t: Tree)
    requires OneShort(c, t) && !c.Top? && !IsRed(t)
    requires c.sib.Fork? && !c.sib.red && !IsRed(c.sib.l) && !IsRed(c.sib.r)
    ensures OneShort(c.up, Filled(With(c, c.red, c.sib.(red := true)), t))
  {
    var h := BlackHeight(t) + 1;
    assert CtxRb(c.up, h + (if c.red then 0 else 1), c.red);
    assert CtxRb(c.up, h + (if c.red then 0 else 1), false);
    assert Rb(c.sib.(red := true));
  }

  // The far nephew is black, the near one red: rotate the sibling.
  lemma {:induction false} NearNephew(c: Ctx, t: Tree)
    requires OneShort(c, t) && !c.Top? && !IsRed(t) && c.sib.Fork? && !c.sib.red
    ensures c.InLeft? && !IsRed(c.sib.r) && IsRed(c.sib.l) ==>
              OneShort(With(c, c.red, Fork(c.sib.l.l, c.sib.l.n, false, Fork(c.sib.l.r, c.sib.n, true, c.sib.r))), t)
    ensures c.InRight? && !IsRed(c.sib.l) && IsRed(c.sib.r) ==>
              OneShort(With(c, c.red, Fork(Fork(c.sib.l, c.sib.n, true, c.sib.r.l), c.sib.r.n, false, c.sib.r.r)), t)
  {
    if c.InLeft? && !IsRed(c.sib.r) && IsRed(c.sib.l) {
      assert Rb(c.sib.l) && Rb(Fork(c.sib.l.r, c.sib.n, true, c.sib.r));
    }
    if c.InRight? && !IsRed(c.sib.l) && IsRed(c.sib.r) {
      assert Rb(c.sib.r) && Rb(Fork(c.sib.l, c.sib.n, true, c.sib.r.l));
      assert BlackHeight(c.sib) ==
        BlackHeight(Fork(Fork(c.sib.l, c.sib.n, true, c.sib.r.l), c.sib.r.n, false, c.sib.r.r));
    }
  }

  ghost function FarNephewFixed(c: Ctx, t: Tree): Tree
    requires !c.Top? && c.sib.Fork?
  {
    if c.InLeft? then Fork(Fork(t, c.n, false, c.sib.l), c.sib.n, c.red, Blacken(c.sib.r))
    else Fork(Blacken(c.sib.l), c.sib.n, c.red, Fork(c.sib.r, c.n, false, t))
  }

  lemma {:induction false} FarNephew(c: Ctx, t: Tree)
    requires OneShort(c, t) && !c.Top? && !IsRed(t) && c.sib.Fork? && !c.sib.red
    requires if c.InLeft? then IsRed(c.sib.r) else IsRed(c.sib.l)
    ensures var w := Plug(c.up, FarNephewFixed(c, t)); Rb(w) && !IsRed(w) && OneShort(Top, w)
  {
    var f := FarNephewFixed(c, t);
    assert Rb(c.sib.l) && Rb(c.sib.r);
    assert Rb(Blacken(if c.InLeft? then c.sib.r else c.sib.l));
    assert Rb(if c.InLeft? then f.l else f.r);
    PlugRb(c.up, f);
  }

  lemma {:induction false} DeleteBalanced(c: Ctx, t: Tree)
    requires OneShort(c, t) && (c.Top? || IsRed(t))
    ensures Rb(Plug(c, Blacken(t))) && !IsRed(Plug(c, Blacken(t)))
  {
    PlugRb(c, Blacken(t));
  }

  // The loop measure: it also drops when a red sibling is rotated up and the
  // hole sinks one level.
  ghost function Measure(c: Ctx, t: Tree): nat {
    2 * BlackDepth(c) + if IsRed(t) then 0 else 1
  }

  lemma {:induction false} RootIsBlack(c: Ctx, h: nat, r: bool)
    requires CtxRb(c, h, r) && !c.Top?
    ensures BlackDepth(c) >= 1
    decreases c
  {
    if c.red { RootIsBlack(c.up, h, true); }
  }

  lemma {:induction false} RootIsBlackAbove(c: Ctx, t: Tree)
    requires OneShort(c, t) && !c.Top?
    ensures BlackDepth(c) >= 1
  {
    RootIsBlack(c, BlackHeight(Blacken(t)) + (if IsRed(t) then 0 else 1), false);
  }

  // ----- height -----

  ghost function Height(t: Tree): nat {
    if t.Leaf? then 0 else 1 + if Height(t.l) < Height(t.r) then Height(t.r) else Height(t.l)
  }

  lemma {:induction false} SizeFromBlackHeight(t: Tree)
    requires Rb(t)
    ensures Pow2(BlackHeight(t)) <= Size(t) + 1
    ensures Height(t) <= 2 * BlackHeight(t) + if IsRed(t) then 1 else 0
  {
    if t.Fork? {
      SizeFromBlackHeight(t.l);
      SizeFromBlackHeight(t.r);
    }
  }

  lemma {:induction false} Pow2Doubles(n: nat, m: nat)
    requires m <= 2 * n
    ensures Pow2(m) <= Pow2(n) * Pow2(n)
  {
    if n > 0 {
      Pow2Doubles(n - 1, if m < 2 then 0 else m - 2);
      assert Pow2(n) * Pow2(n) == 4 * (Pow2(n - 1) * Pow2(n - 1));
    }
  }

  lemma {:induction false} SquareMonotone(a: nat, b: nat)
    requires a <= b
    ensures a * a <= b * b
  {
    assert a * a <= a * b;
    assert a * b <= b * b;
  }

  // height <= 2 log2(size + 1), written without logarithms.
  lemma {:induction false} HeightBound(t: Tree)
    requires Rb(t) && !IsRed(t)
    ensures Pow2(Height(t)) <= (Size(t) + 1) * (Size(t) + 1)
  {
    SizeFromBlackHeight(t);
    Pow2Doubles(BlackHeight(t), Height(t));
    SquareMonotone(Pow2(BlackHeight(t)), Size(t) + 1);
  }
}
