/** Deletion on values: what the cases of rb_remove_node and rb_delete_fixup do to the tree. */
module RbDelete {
  import opened RbTree
  import opened RbHeap
  import opened RbSteps

  /** The state of rb_delete_fixup: t fills a hole that lacks one black, unless its root is red and only needs painting. */
  ghost predicate Short(c: Ctx, t: Tree, n: nat)
  {
    CtxOk(c, n + 1) && if IsRed(t) then RB(Blacken(t), n + 1) else RB(t, n)
  }

  /** The sibling of the hole. */
  ghost function Sibling(c: Ctx): Tree
    requires !c.Top?
  {
    if c.InLeft? then c.right else c.left
  }

  lemma SiblingExists(c: Ctx, t: Tree, n: nat)
    requires Short(c, t, n) && !c.Top?
    ensures Sibling(c).Node?
    ensures IsRed(Sibling(c)) ==> !c.red && Sibling(c).left.Node? && Sibling(c).right.Node?
  {
    var w := Sibling(c);
    assert RB(w, n + 1);
    assert IsRed(w) ==> RB(w.left, n + 1) && RB(w.right, n + 1);
  }

  // Red sibling: rotate it above the parent, so that the hole gets a black sibling and a red parent.

  ghost function RedSiblingLeft(c: Ctx): Ctx
    requires c.InLeft? && c.right.Node?
  {
    InLeft(InLeft(c.up, false, c.right.id, c.right.right), true, c.id, c.right.left)
  }

  ghost function RedSiblingRight(c: Ctx): Ctx
    requires c.InRight? && c.left.Node?
  {
    InRight(InRight(c.up, false, c.left.left, c.left.id), true, c.left.right, c.id)
  }

  lemma RedSiblingOk(c: Ctx, t: Tree, n: nat)
    requires Short(c, t, n) && !c.Top? && IsRed(Sibling(c))
    ensures c.InLeft? ==> Short(RedSiblingLeft(c), t, n) && !IsRed(c.right.left)
    ensures c.InRight? ==> Short(RedSiblingRight(c), t, n) && !IsRed(c.left.right)
  {}

  // Black sibling with black children: paint it red and move up.

  ghost function PaintSibling(c: Ctx): Ctx
    requires !c.Top? && Sibling(c).Node?
  {
    if c.InLeft? then c.(right := c.right.(red := true)) else c.(left := c.left.(red := true))
  }

  lemma MoveUpOk(c: Ctx, t: Tree, n: nat)
    requires Short(c, t, n) && !IsRed(t) && !c.Top? && Sibling(c).Node? && !Sibling(c).red
    requires !IsRed(Sibling(c).left) && !IsRed(Sibling(c).right)
    ensures Short(c.up, Grow(PaintSibling(c), t), if c.red then n else n + 1)
  {}

  // Black sibling with a red child: at most two rotations finish.

  /** The outer nephew made red. */
  ghost function Outer(c: Ctx): Tree
    requires !c.Top? && Sibling(c).Node? && (IsRed(Sibling(c).left) || IsRed(Sibling(c).right))
  {
    var w := Sibling(c);
    if c.InLeft? then (if IsRed(w.right) then w else RotR(Paint(w, true, false, false)))
    else (if IsRed(w.left) then w else RotL(Paint(w, true, false, false)))
  }

  ghost function FinishLeft(c: Ctx, t: Tree, w: Tree): Tree
    requires c.InLeft? && w.Node? && w.right.Node?
  {
    Node(c.red, Node(false, t, c.id, w.left), w.id, w.right.(red := false))
  }

  ghost function FinishRight(c: Ctx, t: Tree, w: Tree): Tree
    requires c.InRight? && w.Node? && w.left.Node?
  {
    Node(c.red, w.left.(red := false), w.id, Node(false, w.right, c.id, t))
  }

  lemma OuterOk(c: Ctx, t: Tree, n: nat)
    requires Short(c, t, n) && !c.Top? && Sibling(c).Node? && !Sibling(c).red
    requires IsRed(Sibling(c).left) || IsRed(Sibling(c).right)
    ensures RB(Outer(c), n + 1) && !Outer(c).red && IsRed(if c.InLeft? then Outer(c).right else Outer(c).left)
  {
    var w := Sibling(c);
    assert RB(w, n + 1);
    assert RB(w.left, n) && RB(w.right, n);
    assert IsRed(w.left) ==> RB(w.left.left, n) && RB(w.left.right, n);
    assert IsRed(w.right) ==> RB(w.right.left, n) && RB(w.right.right, n);
    if c.InLeft? && !IsRed(w.right) {
      assert RB(Node(true, w.left.right, w.id, w.right), n);
    }
    if c.InRight? && !IsRed(w.left) {
      assert RB(Node(true, w.left, w.id, w.right.left), n);
    }
  }

  lemma FinishOk(c: Ctx, t: Tree, n: nat, w: Tree)
    requires Short(c, t, n) && !IsRed(t) && !c.Top? && RB(w, n + 1) && w.Node? && !w.red
    requires IsRed(if c.InLeft? then w.right else w.left)
    ensures var m := if c.red then n + 1 else n + 2;
            && CtxOk(c.up, m) && (CtxRed(c.up) ==> !c.red)
            && RB(if c.InLeft? then FinishLeft(c, t, w) else FinishRight(c, t, w), m)
  {
    if c.InLeft? {
      assert RB(Node(false, t, c.id, w.left), n + 1) && RB(w.right.(red := false), n + 1);
    } else {
      assert RB(Node(false, w.right, c.id, t), n + 1) && RB(w.left.(red := false), n + 1);
    }
  }

  lemma {:induction false} PlugRB(c: Ctx, t: Tree, n: nat) returns (m: nat)
    requires CtxOk(c, n) && RB(t, n) && !(IsRed(t) && CtxRed(c))
    ensures RB(Plug(c, t), m)
  {
    if c.Top? {
      m := n;
    } else {
      m := PlugRB(c.up, Grow(c, t), if c.red then n else n + 1);
    }
  }

  // ---------- the sequence of nodes stays the same ----------

  /** Replacing a subtree by one with the same sequence of the same nodes. */
  lemma Resubtree(h: Heap, k: Heap, c: Ctx, t: Tree, u: Tree)
    requires Inorder(u) == Inorder(t) && Ids(u) == Ids(t) && Outside(h, k, CtxIds(c) + Ids(t))
    ensures SameNodes(h, c, t, k, c, u)
  {
    PlugInorder(c, t);
    PlugInorder(c, u);
  }

  lemma UpSame(h: Heap, c: Ctx, t: Tree)
    requires !c.Top?
    ensures SameNodes(h, c, t, h, c.up, Grow(c, t)) && SameNodes(h, c.up, Grow(c, t), h, c, t)
  {
    GrowFacts(c, t);
  }

  lemma SameTurnRight(h: Heap, k: Heap, d: Ctx, s: Tree)
    requires s.Node? && s.left.Node? && Sep(s) && Outside(h, k, CtxIds(d) + Ids(s))
    ensures SameNodes(h, d, s, k, d, RotR(Paint(s, true, false, IsRed(s.right))))
  {
    var p := Paint(s, true, false, IsRed(s.right));
    PaintFacts(s, true, false, IsRed(s.right));
    RotRInorder(p);
    RotRIds(p);
    Resubtree(h, k, d, s, RotR(p));
  }

  /** A change inside the sibling, seen from the hole. */
  lemma SameAcrossLeft(h: Heap, k: Heap, c: Ctx, t: Tree, v: Tree)
    requires c.InLeft?
    requires SameNodes(h, InRight(c.up, c.red, t, c.id), c.right, k, InRight(c.up, c.red, t, c.id), v)
    ensures SameNodes(h, c, t, k, c.(right := v), t)
  {
    var d := InRight(c.up, c.red, t, c.id);
    UpSame(h, c, t);
    UpSame(h, d, c.right);
    UpSame(k, d, v);
    UpSame(k, c.(right := v), t);
  }

  lemma FinishReadyLeft(h: Heap, root: int, c: Ctx, t: Tree)
    requires Zip(h, root, c, t) && c.InLeft? && c.right.Node? && c.right.right.Node?
    ensures 0 <= c.id < |h| && 0 <= c.right.id < |h| && 0 <= c.right.right.id < |h|
    ensures c.id != c.right.id && c.id != c.right.right.id && c.right.id != c.right.right.id
    ensures h[c.id].red == c.red && h[c.right.id].right == c.right.right.id
    ensures {c.id, c.right.id, c.right.right.id} <= CtxIds(c)
  {
    ChildFacts(h, c.right, c.id);
    ChildFacts(h, c.right.right, c.right.id);
  }

  lemma FinishPaintedLeft(h: Heap, root: int, c: Ctx, t: Tree, k: Heap)
    requires Zip(h, root, c, t) && c.InLeft? && c.right.Node? && c.right.right.Node?
    requires 0 <= c.id < |h| && 0 <= c.right.id < |h| && 0 <= c.right.right.id < |h|
    requires Outside(h, k, {c.id, c.right.id, c.right.right.id})
    requires k[c.right.id] == h[c.right.id].(red := c.red) && k[c.right.right.id] == h[c.right.right.id].(red := false)
    requires k[c.id] == h[c.id].(red := false)
    ensures Zip(k, root, c.up, Node(false, t, c.id, Paint(c.right, c.red, IsRed(c.right.left), false)))
  {
    var d := InRight(c.up, c.red, t, c.id);
    var s := c.right;
    ZipUp(h, root, c, t);
    ZipRight(h, root, c.up, Grow(c, t));
    FinishReadyLeft(h, root, c, t);
    var m := k[c.id := h[c.id]];
    PaintReady(h, root, d, s);
    PaintZip(h, root, d, s, m, c.red, IsRed(s.left), false);
    FinishRootLeft(m, root, c, t, Paint(s, c.red, IsRed(s.left), false), k);
  }

  lemma FinishRootLeft(h: Heap, root: int, c: Ctx, t: Tree, v: Tree, k: Heap)
    requires c.InLeft? && v.Node? && v.red == c.red && Zip(h, root, InRight(c.up, c.red, t, c.id), v)
    requires 0 <= c.id < |h| && Outside(h, k, {c.id}) && k[c.id] == h[c.id].(red := false)
    ensures Zip(k, root, c.up, Node(false, t, c.id, v))
  {
    var g := Grow(InRight(c.up, c.red, t, c.id), v);
    ZipUp(h, root, InRight(c.up, c.red, t, c.id), v);
    PaintReady(h, root, c.up, g);
    PaintZip(h, root, c.up, g, k, false, IsRed(t), c.red);
  }

  lemma FinishSameLeft(h: Heap, k: Heap, c: Ctx, t: Tree)
    requires c.InLeft? && c.right.Node? && c.right.right.Node? && Sep(Grow(c, t)) && Outside(h, k, CtxIds(c) + Ids(t))
    ensures SameNodes(h, c, t, k, c.up, FinishLeft(c, t, c.right))
  {
    var g := Grow(c, t);
    var v := Paint(c.right, c.red, IsRed(c.right.left), false);
    PaintFacts(c.right, c.red, IsRed(c.right.left), false);
    var p := Node(false, t, c.id, v);
    assert Ids(p) == Ids(g) && Sep(p) && Inorder(p) == Inorder(g);
    RotLInorder(p);
    RotLIds(p);
    UpSame(h, c, t);
    Resubtree(h, k, c.up, g, FinishLeft(c, t, c.right));
  }

  lemma SameTurnLeft(h: Heap, k: Heap, d: Ctx, s: Tree)
    requires s.Node? && s.right.Node? && Sep(s) && Outside(h, k, CtxIds(d) + Ids(s))
    ensures SameNodes(h, d, s, k, d, RotL(Paint(s, true, IsRed(s.left), false)))
  {
    var p := Paint(s, true, IsRed(s.left), false);
    PaintFacts(s, true, IsRed(s.left), false);
    RotLInorder(p);
    RotLIds(p);
    Resubtree(h, k, d, s, RotL(p));
  }

  /** A change inside the sibling, seen from the hole. */
  lemma SameAcrossRight(h: Heap, k: Heap, c: Ctx, t: Tree, v: Tree)
    requires c.InRight?
    requires SameNodes(h, InLeft(c.up, c.red, c.id, t), c.left, k, InLeft(c.up, c.red, c.id, t), v)
    ensures SameNodes(h, c, t, k, c.(left := v), t)
  {
    var d := InLeft(c.up, c.red, c.id, t);
    UpSame(h, c, t);
    UpSame(h, d, c.left);
    UpSame(k, d, v);
    UpSame(k, c.(left := v), t);
  }

  lemma FinishReadyRight(h: Heap, root: int, c: Ctx, t: Tree)
    requires Zip(h, root, c, t) && c.InRight? && c.left.Node? && c.left.left.Node?
    ensures 0 <= c.id < |h| && 0 <= c.left.id < |h| && 0 <= c.left.left.id < |h|
    ensures c.id != c.left.id && c.id != c.left.left.id && c.left.id != c.left.left.id
    ensures h[c.id].red == c.red && h[c.left.id].left == c.left.left.id
    ensures {c.id, c.left.id, c.left.left.id} <= CtxIds(c)
  {
    ChildFacts(h, c.left, c.id);
    ChildFacts(h, c.left.left, c.left.id);
  }

  lemma FinishPaintedRight(h: Heap, root: int, c: Ctx, t: Tree, k: Heap)
    requires Zip(h, root, c, t) && c.InRight? && c.left.Node? && c.left.left.Node?
    requires 0 <= c.id < |h| && 0 <= c.left.id < |h| && 0 <= c.left.left.id < |h|
    requires Outside(h, k, {c.id, c.left.id, c.left.left.id})
    requires k[c.left.id] == h[c.left.id].(red := c.red) && k[c.left.left.id] == h[c.left.left.id].(red := false)
    requires k[c.id] == h[c.id].(red := false)
    ensures Zip(k, root, c.up, Node(false, Paint(c.left, c.red, false, IsRed(c.left.right)), c.id, t))
  {
    var d := InLeft(c.up, c.red, c.id, t);
    var s := c.left;
    ZipUp(h, root, c, t);
    ZipLeft(h, root, c.up, Grow(c, t));
    FinishReadyRight(h, root, c, t);
    var m := k[c.id := h[c.id]];
    PaintReady(h, root, d, s);
    PaintZip(h, root, d, s, m, c.red, false, IsRed(s.right));
    FinishRootRight(m, root, c, t, Paint(s, c.red, false, IsRed(s.right)), k);
  }

  lemma FinishRootRight(h: Heap, root: int, c: Ctx, t: Tree, v: Tree, k: Heap)
    requires c.InRight? && v.Node? && v.red == c.red && Zip(h, root, InLeft(c.up, c.red, c.id, t), v)
    requires 0 <= c.id < |h| && Outside(h, k, {c.id}) && k[c.id] == h[c.id].(red := false)
    ensures Zip(k, root, c.up, Node(false, v, c.id, t))
  {
    var g := Grow(InLeft(c.up, c.red, c.id, t), v);
    ZipUp(h, root, InLeft(c.up, c.red, c.id, t), v);
    PaintReady(h, root, c.up, g);
    PaintZip(h, root, c.up, g, k, false, c.red, IsRed(t));
  }

  lemma FinishSameRight(h: Heap, k: Heap, c: Ctx, t: Tree)
    requires c.InRight? && c.left.Node? && c.left.left.Node? && Sep(Grow(c, t)) && Outside(h, k, CtxIds(c) + Ids(t))
    ensures SameNodes(h, c, t, k, c.up, FinishRight(c, t, c.left))
  {
    var g := Grow(c, t);
    var v := Paint(c.left, c.red, false, IsRed(c.left.right));
    PaintFacts(c.left, c.red, false, IsRed(c.left.right));
    var p := Node(false, v, c.id, t);
    assert Ids(p) == Ids(g) && Sep(p) && Inorder(p) == Inorder(g);
    RotRInorder(p);
    RotRIds(p);
    UpSame(h, c, t);
    Resubtree(h, k, c.up, g, FinishRight(c, t, c.left));
  }

  ghost function Measure(c: Ctx, t: Tree): nat { if c.Top? || IsRed(t) then 0 else 1 + Depth(c) }

  /** The loop state of rb_delete_fixup. */
  ghost predicate Deleting(h: Heap, root: int, x: int, xp: int, c: Ctx, t: Tree, n: nat)
  {
    Zip(h, root, c, t) && Short(c, t, n) && x == Root(t) && xp == CtxId(c)
  }

  /** The pointers rb_delete_fixup looks at: a sibling exists and its children are where the tree says. */
  lemma NephewsLeft(h: Heap, root: int, c: Ctx, t: Tree)
    requires Zip(h, root, c, t) && c.InLeft? && c.right.Node?
    ensures 0 <= c.id < |h| && h[c.id].right == c.right.id && 0 <= c.right.id < |h| && h[c.right.id].red == c.right.red
    ensures var l := h[c.right.id].left; (l == NULL || 0 <= l < |h|) && (l != NULL && h[l].red <==> IsRed(c.right.left))
    ensures var r := h[c.right.id].right; (r == NULL || 0 <= r < |h|) && (r != NULL && h[r].red <==> IsRed(c.right.right))
    ensures h[c.id].parent == CtxId(c.up)
  {
    ChildFacts(h, c.right, c.id);
  }

  /** The pointers rb_delete_fixup looks at: a sibling exists and its children are where the tree says. */
  lemma NephewsRight(h: Heap, root: int, c: Ctx, t: Tree)
    requires Zip(h, root, c, t) && c.InRight? && c.left.Node?
    ensures 0 <= c.id < |h| && h[c.id].left == c.left.id && 0 <= c.left.id < |h| && h[c.left.id].red == c.left.red
    ensures var l := h[c.left.id].right; (l == NULL || 0 <= l < |h|) && (l != NULL && h[l].red <==> IsRed(c.left.right))
    ensures var r := h[c.left.id].left; (r == NULL || 0 <= r < |h|) && (r != NULL && h[r].red <==> IsRed(c.left.left))
    ensures h[c.id].parent == CtxId(c.up)
  {
    ChildFacts(h, c.left, c.id);
  }

  lemma WholeSame(h: Heap, root: int, c: Ctx, t: Tree, n: nat) returns (m: nat)
    requires Zip(h, root, c, t) && CtxOk(c, n) && RB(t, n) && !(IsRed(t) && CtxRed(c))
    ensures Deleting(h, root, root, NULL, Top, Plug(c, t), m) && SameNodes(h, c, t, h, Top, Plug(c, t))
  {
    m := PlugRB(c, t, n);
    ZipWhole(h, root, c, t);
    PlugIds(c, t);
  }

  lemma {:induction false} RootInCtx(h: Heap, root: int, c: Ctx, p: int)
    requires CtxShape(h, root, c, p) && !c.Top?
    ensures root in CtxIds(c)
  {
    if !c.up.Top? {
      RootInCtx(h, root, c.up, c.id);
    }
  }

  /** What the tests of rb_delete_fixup say about the tree; a missing x is told from its sibling. */
  ghost predicate DeleteTests(h: Heap, root: int, x: int, xp: int, c: Ctx, t: Tree)
  {
    && (x == NULL || 0 <= x < |h|) && (x != NULL && h[x].red <==> IsRed(t)) && (x == root <==> c.Top?)
    && (!c.Top? ==> 0 <= xp < |h| && (h[xp].left == x <==> c.InLeft?))
  }

  lemma DeleteGuard(h: Heap, root: int, x: int, xp: int, c: Ctx, t: Tree, n: nat)
    requires Deleting(h, root, x, xp, c, t, n)
    ensures DeleteTests(h, root, x, xp, c, t)
  {
    if !c.Top? {
      CtxRange(h, root, c, x);
      RootInCtx(h, root, c, x);
      SiblingExists(c, t, n);
      if c.InRight? { NephewsRight(h, root, c, t); }
    }
  }

  /** Painting the root of the focus black. */
  lemma BlackenFocus(h: Heap, k: Heap, root: int, c: Ctx, t: Tree)
    requires Zip(h, root, c, t) && t.Node? && 0 <= t.id < |h| && Outside(h, k, {t.id}) && k[t.id] == h[t.id].(red := false)
    ensures Zip(k, root, c, Blacken(t)) && SameNodes(h, c, t, k, c, Blacken(t))
  {
    PaintReady(h, root, c, t);
    PaintZip(h, root, c, t, k, false, IsRed(t.left), IsRed(t.right));
    Resubtree(h, k, c, t, Blacken(t));
  }

  lemma DeleteEnd(c: Ctx, t: Tree, n: nat)
    requires Short(c, t, n) && (c.Top? || IsRed(t))
    ensures Valid(Blacken(Plug(c, Blacken(t))))
  {
    PlugValid(c, Blacken(t), if IsRed(t) then n + 1 else n);
  }
}
