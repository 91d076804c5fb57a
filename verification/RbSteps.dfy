/** What each memory effect of the run-queue tree code means for the tree it represents. */
module RbSteps {
  import opened RbTree
  import opened RbHeap

  ghost function RotL(t: Tree): Tree
    requires t.Node? && t.right.Node?
  {
    Node(t.right.red, Node(t.red, t.left, t.id, t.right.left), t.right.id, t.right.right)
  }

  ghost function RotR(t: Tree): Tree
    requires t.Node? && t.left.Node?
  {
    Node(t.left.red, t.left.left, t.left.id, Node(t.red, t.left.right, t.id, t.right))
  }

  lemma Assoc(a: seq<int>, x: seq<int>, b: seq<int>, y: seq<int>, d: seq<int>)
    ensures a + x + (b + y + d) == (a + x + b) + y + d
  {}

  lemma RotLInorder(t: Tree)
    requires t.Node? && t.right.Node?
    ensures Inorder(RotL(t)) == Inorder(t)
  {
    Assoc(Inorder(t.left), [t.id], Inorder(t.right.left), [t.right.id], Inorder(t.right.right));
  }

  lemma RotLIds(t: Tree)
    requires t.Node? && t.right.Node? && Sep(t)
    ensures Ids(RotL(t)) == Ids(t) && Sep(RotL(t))
  {
    var l := RotL(t).left;
    assert Sep(t.right);
    assert Ids(l) == Ids(t.left) + {t.id} + Ids(t.right.left);
    assert Ids(t.right) == Ids(t.right.left) + {t.right.id} + Ids(t.right.right);
    assert Sep(l);
  }

  lemma RotRInorder(t: Tree)
    requires t.Node? && t.left.Node?
    ensures Inorder(RotR(t)) == Inorder(t)
  {
    RotLInorder(RotR(t));
  }

  lemma RotRIds(t: Tree)
    requires t.Node? && t.left.Node? && Sep(t)
    ensures Ids(RotR(t)) == Ids(t) && Sep(RotR(t))
  {
    var r := RotR(t).right;
    assert Sep(t.left);
    assert Ids(r) == Ids(t.left.right) + {t.id} + Ids(t.right);
    assert Ids(t.left) == Ids(t.left.left) + {t.left.id} + Ids(t.left.right);
    assert Sep(r);
  }

  /** Only nodes in s may differ. */
  ghost predicate Outside(h: Heap, k: Heap, s: set<int>)
  {
    |h| == |k| && forall i | 0 <= i < |h| && i !in s :: h[i] == k[i]
  }

  /** Node p after its child u was replaced by v. */
  ghost function Rechild(n: RbNode, u: int, v: int): RbNode
  {
    if u == n.left then n.(left := v) else n.(right := v)
  }

  /** A pointer is NULL or in the table, and none of s. */
  ghost predicate Link(h: Heap, p: int, s: set<int>)
  {
    p == NULL || (0 <= p < |h| && p !in s)
  }

  /** The memory effect of rb_rotate_left at x. */
  ghost predicate RotatedLeft(h: Heap, root: int, x: int, k: Heap, r: int)
    requires 0 <= x < |h| && 0 <= h[x].right < |h|
  {
    var y := h[x].right;
    var w, p := h[y].left, h[x].parent;
    && Outside(h, k, {x, y, w, p})
    && k[x] == h[x].(right := w, parent := y) && k[y] == h[y].(left := x, parent := p)
    && (0 <= w < |h| ==> k[w] == h[w].(parent := x))
    && (0 <= p < |h| ==> k[p] == Rechild(h[p], x, y))
    && r == if p == NULL then y else root
  }

  /** The memory effect of rb_rotate_right at x. */
  ghost predicate RotatedRight(h: Heap, root: int, x: int, k: Heap, r: int)
    requires 0 <= x < |h| && 0 <= h[x].left < |h|
  {
    var y := h[x].left;
    var w, p := h[y].right, h[x].parent;
    && Outside(h, k, {x, y, w, p})
    && k[x] == h[x].(left := w, parent := y) && k[y] == h[y].(right := x, parent := p)
    && (0 <= w < |h| ==> k[w] == h[w].(parent := x))
    && (0 <= p < |h| ==> k[p] == Rechild(h[p], x, y))
    && r == if p == NULL then y else root
  }

  /** Facts about a focused subtree and its surroundings that pointer code relies on. */
  lemma FocusFacts(h: Heap, root: int, c: Ctx, t: Tree)
    requires Zip(h, root, c, t) && t.Node?
    ensures 0 <= t.id < |h| && h[t.id] == RbNode(CtxId(c), Root(t.left), Root(t.right), t.red)
    ensures Link(h, CtxId(c), Ids(t)) && (c.Top? ==> root == t.id)
    ensures !c.Top? ==> 0 <= c.id < |h| && c.id in CtxIds(c) && (h[c.id].left == t.id <==> c.InLeft?)
    ensures Shape(h, t.left, t.id) && Shape(h, t.right, t.id) && Sep(t.left) && Sep(t.right)
  {}

  /** NULL means the empty tree. */
  lemma FocusRoot(h: Heap, root: int, c: Ctx, t: Tree)
    requires Zip(h, root, c, t)
    ensures Root(t) == NULL <==> t.Leaf?
  {}

  lemma ChildFacts(h: Heap, t: Tree, p: int)
    requires Shape(h, t, p) && Sep(t) && t.Node?
    ensures 0 <= t.id < |h| && h[t.id] == RbNode(p, Root(t.left), Root(t.right), t.red)
    ensures Shape(h, t.left, t.id) && Shape(h, t.right, t.id) && Sep(t.left) && Sep(t.right)
    ensures Link(h, Root(t.left), {t.id} + Ids(t.right)) && Link(h, Root(t.right), {t.id} + Ids(t.left))
  {}

  /** Replacing the child of the hole's parent: the context now points to y. */
  lemma Replaced(h: Heap, root: int, c: Ctx, x: int, k: Heap, r: int, y: int)
    requires CtxShape(h, root, c, x) && CtxSep(c) && x !in CtxIds(c) && x != NULL && |h| == |k|
    requires Same(h, k, CtxIds(c) - {CtxId(c)})
    requires 0 <= CtxId(c) < |h| ==> k[CtxId(c)] == Rechild(h[CtxId(c)], x, y)
    requires r == if CtxId(c) == NULL then y else root
    ensures CtxShape(k, r, c, y)
  {
    if !c.Top? {
      Rehole(h, k, root, c, x, y);
    }
  }

  lemma LeftRotatedTree(h: Heap, root: int, p: int, t: Tree, k: Heap, r: int)
    requires Shape(h, t, p) && Sep(t) && t.Node? && t.right.Node? && p !in Ids(t)
    requires 0 <= t.id < |h| && 0 <= h[t.id].right < |h| && RotatedLeft(h, root, t.id, k, r)
    ensures Shape(k, RotL(t), p)
  {
    ChildFacts(h, t, p);
    ChildFacts(h, t.right, t.id);
    ShapeFrame(h, k, t.left, t.id);
    Reparent(h, k, t.right.left, t.right.id, t.id);
    ShapeFrame(h, k, t.right.right, t.right.id);
  }

  lemma LeftRotation(h: Heap, root: int, c: Ctx, t: Tree, k: Heap, r: int)
    requires Zip(h, root, c, t) && t.Node? && t.right.Node?
    requires 0 <= t.id < |h| && 0 <= h[t.id].right < |h| && RotatedLeft(h, root, t.id, k, r)
    ensures Zip(k, r, c, RotL(t))
    ensures Outside(h, k, CtxIds(c) + Ids(t))
  {
    RotLIds(t);
    FocusFacts(h, root, c, t);
    ShapeRange(h, t, CtxId(c));
    ChildFacts(h, t.right, t.id);
    LeftRotatedTree(h, root, CtxId(c), t, k, r);
    Replaced(h, root, c, t.id, k, r, t.right.id);
  }

  lemma RightRotatedTree(h: Heap, root: int, p: int, t: Tree, k: Heap, r: int)
    requires Shape(h, t, p) && Sep(t) && t.Node? && t.left.Node? && p !in Ids(t)
    requires 0 <= t.id < |h| && 0 <= h[t.id].left < |h| && RotatedRight(h, root, t.id, k, r)
    ensures Shape(k, RotR(t), p)
  {
    ChildFacts(h, t, p);
    ChildFacts(h, t.left, t.id);
    ShapeFrame(h, k, t.right, t.id);
    Reparent(h, k, t.left.right, t.left.id, t.id);
    ShapeFrame(h, k, t.left.left, t.left.id);
  }

  lemma RightRotation(h: Heap, root: int, c: Ctx, t: Tree, k: Heap, r: int)
    requires Zip(h, root, c, t) && t.Node? && t.left.Node?
    requires 0 <= t.id < |h| && 0 <= h[t.id].left < |h| && RotatedRight(h, root, t.id, k, r)
    ensures Zip(k, r, c, RotR(t))
    ensures Outside(h, k, CtxIds(c) + Ids(t))
  {
    RotRIds(t);
    FocusFacts(h, root, c, t);
    ShapeRange(h, t, CtxId(c));
    ChildFacts(h, t.left, t.id);
    RightRotatedTree(h, root, CtxId(c), t, k, r);
    Replaced(h, root, c, t.id, k, r, t.left.id);
  }

  /** The same tree with other colours at the root and its children. */
  ghost function Paint(t: Tree, a: bool, b: bool, d: bool): Tree
    requires t.Node?
  {
    Node(a, if t.left.Node? then t.left.(red := b) else t.left, t.id, if t.right.Node? then t.right.(red := d) else t.right)
  }

  lemma PaintFacts(t: Tree, a: bool, b: bool, d: bool)
    requires t.Node? && Sep(t)
    ensures Ids(Paint(t, a, b, d)) == Ids(t) && Sep(Paint(t, a, b, d)) && Inorder(Paint(t, a, b, d)) == Inorder(t)
  {
    assert Sep(t.left) && Sep(t.right);
    var p := Paint(t, a, b, d);
    assert Sep(p.left) && Sep(p.right);
  }

  /** One subtree whose root changed colour. */
  lemma Repaint(h: Heap, k: Heap, t: Tree, q: int, a: bool)
    requires Shape(h, t, q) && Sep(t) && |h| == |k| && Same(h, k, Ids(t) - {Root(t)})
    requires 0 <= Root(t) < |h| ==> k[Root(t)] == h[Root(t)].(red := a)
    ensures Shape(k, if t.Node? then t.(red := a) else t, q)
  {
    if t.Node? {
      ShapeFrame(h, k, t.left, t.id);
      ShapeFrame(h, k, t.right, t.id);
    }
  }

  lemma PaintShape(h: Heap, k: Heap, t: Tree, q: int, a: bool, b: bool, d: bool)
    requires Shape(h, t, q) && Sep(t) && t.Node? && 0 <= t.id < |h| == |k|
    requires Same(h, k, Ids(t) - {t.id, Root(t.left), Root(t.right)})
    requires k[t.id] == h[t.id].(red := a)
    requires 0 <= Root(t.left) < |h| ==> k[Root(t.left)] == h[Root(t.left)].(red := b)
    requires 0 <= Root(t.right) < |h| ==> k[Root(t.right)] == h[Root(t.right)].(red := d)
    ensures Shape(k, Paint(t, a, b, d), q)
  {
    ChildFacts(h, t, q);
    Repaint(h, k, t.left, t.id, b);
    Repaint(h, k, t.right, t.id, d);
  }

  /** Writing colours at the focus and its children. */
  lemma PaintZip(h: Heap, root: int, c: Ctx, t: Tree, k: Heap, a: bool, b: bool, d: bool)
    requires Zip(h, root, c, t) && t.Node? && 0 <= t.id < |h|
    requires Outside(h, k, {t.id, Root(t.left), Root(t.right)})
    requires k[t.id] == h[t.id].(red := a)
    requires 0 <= Root(t.left) < |h| ==> k[Root(t.left)] == h[Root(t.left)].(red := b)
    requires 0 <= Root(t.right) < |h| ==> k[Root(t.right)] == h[Root(t.right)].(red := d)
    ensures Zip(k, root, c, Paint(t, a, b, d))
  {
    PaintFacts(t, a, b, d);
    PaintShape(h, k, t, CtxId(c), a, b, d);
    CtxRange(h, root, c, t.id);
    CtxFrame(h, k, root, c, t.id);
  }

  /** The focus and its children are three different nodes of the table, coloured as the tree says. */
  lemma PaintReady(h: Heap, root: int, c: Ctx, t: Tree)
    requires Zip(h, root, c, t) && t.Node?
    ensures 0 <= t.id < |h| && t.id in Ids(t) && h[t.id].red == t.red
    ensures t.left.Node? ==>
              0 <= t.left.id < |h| && t.left.id in Ids(t) && t.left.id != t.id && h[t.left.id].red == t.left.red
    ensures t.right.Node? ==>
              0 <= t.right.id < |h| && t.right.id in Ids(t) && t.right.id != t.id && h[t.right.id].red == t.right.red
    ensures t.left.Node? && t.right.Node? ==> t.left.id != t.right.id
  {
    FocusFacts(h, root, c, t);
  }

  /** The subtree at the hole's parent once t fills the hole. */
  ghost function Grow(c: Ctx, t: Tree): Tree
    requires !c.Top?
  {
    if c.InLeft? then Node(c.red, t, c.id, c.right) else Node(c.red, c.left, c.id, t)
  }

  lemma GrowFacts(c: Ctx, t: Tree)
    requires !c.Top?
    ensures Plug(c, t) == Plug(c.up, Grow(c, t))
    ensures CtxIds(c.up) + Ids(Grow(c, t)) == CtxIds(c) + Ids(t)
  {}

  // ---------- insertion, on values ----------

  /** Both children of the grandparent are red: push the black down. */
  lemma RecolorOk(c: Ctx, t: Tree, n: nat)
    requires CtxOk(c, n) && RB(t, n) && IsRed(t) && CtxRed(c) && !c.up.Top?
    requires IsRed(if c.up.InLeft? then c.up.right else c.up.left)
    ensures var g := Grow(c.up, Grow(c, t)); RB(Paint(g, true, false, false), n + 1) && CtxOk(c.up.up, n + 1)
  {}

  /** The rotated subtree when the parent is a left child with a black sibling. */
  ghost function TurnedRight(c: Ctx, t: Tree): Tree
    requires t.Node? && !c.Top? && c.up.InLeft?
  {
    var p := Grow(c, t);
    var q := if c.InRight? then RotL(p) else p;
    RotR(Paint(Grow(c.up, q), true, false, IsRed(c.up.right)))
  }

  lemma TurnedRightOk(c: Ctx, t: Tree, n: nat)
    requires CtxOk(c, n) && RB(t, n) && IsRed(t) && CtxRed(c) && c.up.InLeft? && !IsRed(c.up.right)
    ensures RB(TurnedRight(c, t), n + 1) && !IsRed(TurnedRight(c, t)) && CtxOk(c.up.up, n + 1)
  {}

  ghost function TurnedLeft(c: Ctx, t: Tree): Tree
    requires t.Node? && !c.Top? && c.up.InRight?
  {
    var p := Grow(c, t);
    var q := if c.InLeft? then RotR(p) else p;
    RotL(Paint(Grow(c.up, q), true, IsRed(c.up.left), false))
  }

  lemma TurnedLeftOk(c: Ctx, t: Tree, n: nat)
    requires CtxOk(c, n) && RB(t, n) && IsRed(t) && CtxRed(c) && c.up.InRight? && !IsRed(c.up.left)
    ensures RB(TurnedLeft(c, t), n + 1) && !IsRed(TurnedLeft(c, t)) && CtxOk(c.up.up, n + 1)
  {}

  ghost function Depth(c: Ctx): nat { if c.Top? then 0 else 1 + Depth(c.up) }

  /** The loop state of rb_insert_fixup: z is the red root of t, or hangs below the black root of t. */
  ghost predicate Fixing(h: Heap, root: int, z: int, c: Ctx, t: Tree, n: nat)
  {
    && Zip(h, root, c, t) && CtxOk(c, n) && RB(t, n) && t.Node? && 0 <= z < |h|
    && (if t.red then t.id == z else h[z].parent == t.id)
  }

  /** Memory k holds (d, u): the same sequence of the same nodes as (c, t) in h, and nothing else changed. */
  ghost predicate SameNodes(h: Heap, c: Ctx, t: Tree, k: Heap, d: Ctx, u: Tree)
  {
    && Inorder(Plug(d, u)) == Inorder(Plug(c, t)) && CtxIds(d) + Ids(u) == CtxIds(c) + Ids(t)
    && Outside(h, k, CtxIds(c) + Ids(t))
  }

  lemma RecolorSame(h: Heap, k: Heap, c: Ctx, t: Tree, d: Ctx, g: Tree)
    requires !c.Top? && !c.up.Top? && d == c.up.up && g == Grow(c.up, Grow(c, t)) && Sep(g)
    requires Outside(h, k, CtxIds(d) + Ids(g))
    ensures SameNodes(h, c, t, k, d, Paint(g, true, false, false))
  {
    GrowFacts(c, t);
    GrowFacts(c.up, Grow(c, t));
    PaintFacts(g, true, false, false);
    PlugInorder(d, g);
    PlugInorder(d, Paint(g, true, false, false));
  }

  lemma TurnRightSame(h: Heap, m: Heap, k: Heap, c: Ctx, t: Tree)
    requires t.Node? && !c.Top? && c.up.InLeft? && Sep(Grow(c.up, Grow(c, t)))
    requires Outside(h, m, CtxIds(c) + Ids(t)) && Outside(m, k, CtxIds(c) + Ids(t))
    ensures SameNodes(h, c, t, k, c.up.up, TurnedRight(c, t))
  {
    var p := Grow(c, t);
    var q := if c.InRight? then RotL(p) else p;
    GrowFacts(c, t);
    GrowFacts(c.up, p);
    assert Sep(p);
    if c.InRight? { RotLIds(p); RotLInorder(p); }
    var g := Grow(c.up, q);
    assert Sep(g) && Ids(g) == Ids(Grow(c.up, p)) && Inorder(g) == Inorder(Grow(c.up, p));
    var b, d := false, IsRed(c.up.right);
    PaintFacts(g, true, b, d);
    RotRIds(Paint(g, true, b, d));
    RotRInorder(Paint(g, true, b, d));
    PlugInorder(c.up.up, Grow(c.up, p));
    PlugInorder(c.up.up, TurnedRight(c, t));
  }

  lemma TurnLeftSame(h: Heap, m: Heap, k: Heap, c: Ctx, t: Tree)
    requires t.Node? && !c.Top? && c.up.InRight? && Sep(Grow(c.up, Grow(c, t)))
    requires Outside(h, m, CtxIds(c) + Ids(t)) && Outside(m, k, CtxIds(c) + Ids(t))
    ensures SameNodes(h, c, t, k, c.up.up, TurnedLeft(c, t))
  {
    var p := Grow(c, t);
    var q := if c.InLeft? then RotR(p) else p;
    GrowFacts(c, t);
    GrowFacts(c.up, p);
    assert Sep(p);
    if c.InLeft? { RotRIds(p); RotRInorder(p); }
    var g := Grow(c.up, q);
    assert Sep(g) && Ids(g) == Ids(Grow(c.up, p)) && Inorder(g) == Inorder(Grow(c.up, p));
    var b, d := IsRed(c.up.left), false;
    PaintFacts(g, true, b, d);
    RotLIds(Paint(g, true, b, d));
    RotLInorder(Paint(g, true, b, d));
    PlugInorder(c.up.up, Grow(c.up, p));
    PlugInorder(c.up.up, TurnedLeft(c, t));
  }

  /** What the loop guard of rb_insert_fixup and its test of the grandparent say about the tree. */
  ghost predicate Guarded(h: Heap, z: int, c: Ctx, t: Tree)
  {
    && 0 <= z < |h| && t.Node? && (h[z].parent == NULL || 0 <= h[z].parent < |h|)
    && (h[z].parent != NULL && h[h[z].parent].red <==> t.red && CtxRed(c))
    && (t.red && CtxRed(c) ==> h[h[z].parent].parent == CtxId(c.up) && (c.up.Top? || c.up.id != NULL))
  }

  lemma FixupParent(h: Heap, root: int, z: int, c: Ctx, t: Tree, n: nat)
    requires Fixing(h, root, z, c, t, n)
    ensures Guarded(h, z, c, t)
  {
    FocusFacts(h, root, c, t);
    if !c.Top? {
      ZipUp(h, root, c, t);
      FocusFacts(h, root, c.up, Grow(c, t));
    }
  }

  /** The pointers rb_insert_fixup looks at around a red node with a red parent. */
  lemma Around(h: Heap, root: int, c: Ctx, t: Tree)
    requires Zip(h, root, c, t) && t.Node? && !c.Top? && !c.up.Top?
    ensures 0 <= t.id < |h| && h[t.id].parent == c.id && 0 <= c.up.id < |h|
    ensures h[c.up.id].left == c.id <==> c.up.InLeft?
    ensures c.up.InLeft? ==> var y := h[c.up.id].right; (y == NULL || 0 <= y < |h|) && (y != NULL && h[y].red <==> IsRed(c.up.right))
    ensures c.up.InRight? ==> var y := h[c.up.id].left; (y == NULL || 0 <= y < |h|) && (y != NULL && h[y].red <==> IsRed(c.up.left))
  {
    FocusFacts(h, root, c, t);
    ZipUp(h, root, c, t);
    FocusFacts(h, root, c.up, Grow(c, t));
    ZipUp(h, root, c.up, Grow(c, t));
    FocusFacts(h, root, c.up.up, Grow(c.up, Grow(c, t)));
  }

  lemma SameTrans(h: Heap, c: Ctx, t: Tree, m: Heap, d: Ctx, u: Tree, k: Heap, e: Ctx, v: Tree)
    requires SameNodes(h, c, t, m, d, u) && SameNodes(m, d, u, k, e, v)
    ensures SameNodes(h, c, t, k, e, v)
  {}

  lemma BlackenZip(h: Heap, k: Heap, root: int, t: Tree)
    requires Zip(h, root, Top, t) && t.Node? && 0 <= root < |h| && Outside(h, k, {root}) && k[root] == h[root].(red := false)
    ensures Zip(k, root, Top, Blacken(t)) && Ids(Blacken(t)) == Ids(t) && Inorder(Blacken(t)) == Inorder(t)
  {
    Repaint(h, k, t, NULL, false);
  }

  // ---------- where rb_insert puts a node ----------

  ghost predicate InTable(s: seq<int>, pri: seq<int>) { forall i | 0 <= i < |s| :: 0 <= s[i] < |pri| }

  ghost predicate Sorted(s: seq<int>, pri: seq<int>)
    requires InTable(s, pri)
  {
    forall i, j | 0 <= i < j < |s| :: pri[s[i]] <= pri[s[j]]
  }

  /** z goes behind every element that is not greater. */
  ghost function Placed(s: seq<int>, z: int, pri: seq<int>): seq<int>
    requires InTable(s, pri) && 0 <= z < |pri|
  {
    if s == [] || pri[z] < pri[s[0]] then [z] + s else [s[0]] + Placed(s[1..], z, pri)
  }

  lemma JoinInTable(a: seq<int>, b: seq<int>, pri: seq<int>)
    requires forall i | i in a || i in b :: 0 <= i < |pri|
    ensures InTable(a + b, pri)
  {
    forall i | 0 <= i < |a + b| ensures 0 <= (a + b)[i] < |pri| { assert (a + b)[i] in a || (a + b)[i] in b; }
  }

  lemma {:induction false} PlacedBetween(a: seq<int>, b: seq<int>, z: int, pri: seq<int>)
    requires 0 <= z < |pri|
    requires forall i | i in a :: 0 <= i < |pri| && pri[i] <= pri[z]
    requires forall i | i in b :: 0 <= i < |pri| && pri[z] < pri[i]
    ensures InTable(a + b, pri) && Placed(a + b, z, pri) == a + [z] + b
  {
    JoinInTable(a, b, pri);
    if a == [] {
      assert a + b == b;
    } else {
      assert forall i | i in a[1..] :: i in a;
      PlacedBetween(a[1..], b, z, pri);
      assert a + b == [a[0]] + (a[1..] + b);
      assert [a[0]] + (a[1..] + [z] + b) == a + [z] + b;
    }
  }

  /** Whether a hole is the place for key: everything before is not greater, everything after is. */
  ghost predicate Straddles(c: Ctx, key: int, pri: seq<int>)
  {
    (forall i | i in Pre(c) :: 0 <= i < |pri| && pri[i] <= key) && (forall i | i in Post(c) :: 0 <= i < |pri| && key < pri[i])
  }

  lemma SortedParts(a: seq<int>, x: int, b: seq<int>, pri: seq<int>)
    requires InTable(a + [x] + b, pri) && Sorted(a + [x] + b, pri)
    ensures InTable(a, pri) && InTable(b, pri) && 0 <= x < |pri| && Sorted(a, pri) && Sorted(b, pri)
    ensures forall i | i in a :: 0 <= i < |pri| && pri[i] <= pri[x]
    ensures forall i | i in b :: 0 <= i < |pri| && pri[x] <= pri[i]
  {
    var s := a + [x] + b;
    assert s[|a|] == x;
    assert forall i | 0 <= i < |a| :: a[i] == s[i];
    assert forall i | 0 <= i < |b| :: b[i] == s[|a| + 1 + i];
  }

  lemma StraddleLeft(c: Ctx, t: Tree, key: int, pri: seq<int>)
    requires t.Node? && Straddles(c, key, pri)
    requires InTable(Inorder(t), pri) && Sorted(Inorder(t), pri) && 0 <= t.id < |pri| && key < pri[t.id]
    ensures Straddles(InLeft(c, t.red, t.id, t.right), key, pri)
    ensures InTable(Inorder(t.left), pri) && Sorted(Inorder(t.left), pri)
  {
    SortedParts(Inorder(t.left), t.id, Inorder(t.right), pri);
  }

  lemma StraddleRight(c: Ctx, t: Tree, key: int, pri: seq<int>)
    requires t.Node? && Straddles(c, key, pri)
    requires InTable(Inorder(t), pri) && Sorted(Inorder(t), pri) && 0 <= t.id < |pri| && pri[t.id] <= key
    ensures Straddles(InRight(c, t.red, t.left, t.id), key, pri)
    ensures InTable(Inorder(t.right), pri) && Sorted(Inorder(t.right), pri)
  {
    SortedParts(Inorder(t.left), t.id, Inorder(t.right), pri);
  }

  /** The search of rb_insert has reached subtree s of t. */
  ghost predicate Descending(h: Heap, root: int, t: Tree, c: Ctx, s: Tree, n: nat, key: int, pri: seq<int>)
  {
    && Zip(h, root, c, s) && CtxOk(c, n) && RB(s, n) && !(CtxRed(c) && IsRed(s)) && Plug(c, s) == t
    && Straddles(c, key, pri) && InTable(Inorder(s), pri) && Sorted(Inorder(s), pri)
  }

  lemma DescendLeft(h: Heap, root: int, t: Tree, c: Ctx, s: Tree, n: nat, key: int, pri: seq<int>)
    requires Descending(h, root, t, c, s, n, key, pri) && s.Node? && 0 <= s.id < |pri| && key < pri[s.id]
    ensures s.red || n > 0
    ensures Descending(h, root, t, InLeft(c, s.red, s.id, s.right), s.left, if s.red then n else n - 1, key, pri)
  {
    ZipLeft(h, root, c, s);
    StraddleLeft(c, s, key, pri);
  }

  lemma DescendRight(h: Heap, root: int, t: Tree, c: Ctx, s: Tree, n: nat, key: int, pri: seq<int>)
    requires Descending(h, root, t, c, s, n, key, pri) && s.Node? && 0 <= s.id < |pri| && pri[s.id] <= key
    ensures s.red || n > 0
    ensures Descending(h, root, t, InRight(c, s.red, s.left, s.id), s.right, if s.red then n else n - 1, key, pri)
  {
    ZipRight(h, root, c, s);
    StraddleRight(c, s, key, pri);
  }

  lemma LinkReady(h: Heap, root: int, c: Ctx)
    requires Zip(h, root, c, Leaf)
    ensures Link(h, CtxId(c), {}) && (!c.Top? ==> c.id in CtxIds(c))
  {}

  /** Hanging z on the place found keeps everything but the colour rule at z. */
  lemma Linked(h: Heap, root: int, c: Ctx, z: int, k: Heap, r: int, key: int, pri: seq<int>)
    requires Zip(h, root, c, Leaf) && CtxOk(c, 0) && Straddles(c, key, pri) && 0 <= z < |h| && z !in CtxIds(c)
    requires Outside(h, k, {z, CtxId(c)}) && k[z] == RbNode(CtxId(c), NULL, NULL, true)
    requires c.Top? ==> r == z
    requires !c.Top? ==> r == root && 0 <= c.id < |h| && 0 <= c.id < |pri|
                         && k[c.id] == if key < pri[c.id] then h[c.id].(left := z) else h[c.id].(right := z)
    ensures Fixing(k, r, z, c, Node(true, Leaf, z, Leaf), 0)
  {
    if !c.Top? {
      CtxRange(h, root, c, NULL);
      assert c.InLeft? ==> c.id in Post(c);
      assert c.InRight? ==> c.id in Pre(c);
      Rehole(h, k, root, c, NULL, z);
    }
    assert Ids(Node(true, Leaf, z, Leaf)) == {z};
    assert Shape(k, Leaf, z);
  }

  lemma Gap(a: seq<int>, z: int, b: seq<int>)
    ensures a + Inorder(Leaf) + b == a + b && Inorder(Node(true, Leaf, z, Leaf)) == [z]
  {}

  lemma InsertedAt(c: Ctx, z: int, pri: seq<int>)
    requires 0 <= z < |pri| && Straddles(c, pri[z], pri)
    ensures InTable(Inorder(Plug(c, Leaf)), pri)
    ensures Inorder(Plug(c, Node(true, Leaf, z, Leaf))) == Placed(Inorder(Plug(c, Leaf)), z, pri)
  {
    PlugInorder(c, Leaf);
    PlugInorder(c, Node(true, Leaf, z, Leaf));
    PlacedBetween(Pre(c), Post(c), z, pri);
    Gap(Pre(c), z, Post(c));
  }

  lemma FirstInOrder(c: Ctx, s: Tree)
    requires s.Node? && s.left.Leaf? && Pre(c) == []
    ensures |Inorder(Plug(c, s))| > 0 && Inorder(Plug(c, s))[0] == s.id && s.id in Ids(Plug(c, s))
  {
    PlugInorder(c, s);
    PlugIds(c, s);
    assert Inorder(s) == [] + [s.id] + Inorder(s.right);
  }
}
