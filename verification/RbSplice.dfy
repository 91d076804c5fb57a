/** Unlinking a node: what the transplants of rb_remove_node mean for the tree. */
module RbSplice {
  import opened RbTree
  import opened RbHeap
  import opened RbSteps
  import opened RbDelete

  lemma ZipFrame(h: Heap, k: Heap, root: int, c: Ctx, t: Tree)
    requires Zip(h, root, c, t) && Same(h, k, CtxIds(c) + Ids(t))
    ensures Zip(k, root, c, t)
  {
    ShapeFrame(h, k, t, CtxId(c));
    CtxFrame(h, k, root, c, Root(t));
  }

  /** The focus can be anywhere in the tree. */
  lemma {:induction false} ZipInto(h: Heap, root: int, c: Ctx, t: Tree)
    requires Zip(h, root, Top, Plug(c, t))
    ensures Zip(h, root, c, t)
  {
    if !c.Top? {
      ZipInto(h, root, c.up, Grow(c, t));
      if c.InLeft? { ZipLeft(h, root, c.up, Grow(c, t)); } else { ZipRight(h, root, c.up, Grow(c, t)); }
    }
  }

  /** The memory effect of rb_transplant. */
  ghost predicate Transplanted(h: Heap, root: int, u: int, v: int, k: Heap, r: int)
    requires 0 <= u < |h|
  {
    var p := h[u].parent;
    && Outside(h, k, {p, v}) && r == (if p == NULL then v else root)
    && (0 <= p < |h| ==> k[p] == Rechild(h[p], u, v)) && (0 <= v < |h| ==> k[v] == h[v].(parent := p))
  }

  /** A node with at most one child is replaced by that child. */
  lemma TransplantChild(h: Heap, root: int, c: Ctx, t: Tree, s: Tree, k: Heap, r: int)
    requires Zip(h, root, c, t) && t.Node? && (s == t.left || s == t.right)
    requires 0 <= t.id < |h| && Transplanted(h, root, t.id, Root(s), k, r)
    ensures Zip(k, r, c, s) && Outside(h, k, CtxIds(c) + Ids(s))
  {
    FocusFacts(h, root, c, t);
    ShapeRange(h, t, CtxId(c));
    CtxRange(h, root, c, t.id);
    Reparent(h, k, s, t.id, CtxId(c));
    Replaced(h, root, c, t.id, k, r, Root(s));
  }

  // ---------- the successor's path ----------

  /** d runs down left links from the right child of z, whose context is c. */
  ghost predicate Spine(d: Ctx, c: Ctx, red: bool, l: Tree, z: int)
  {
    match d
    case Top => false
    case InLeft(up, _, _, _) => Spine(up, c, red, l, z)
    case InRight(up, b, m, n) => d == InRight(c, red, l, z)
  }

  /** The right subtree of z when t fills d. */
  ghost function SpinePlug(d: Ctx, t: Tree): Tree
  {
    if d.InLeft? then SpinePlug(d.up, Node(d.red, t, d.id, d.right)) else t
  }

  /** d with y in the place of z. */
  ghost function Rebase(d: Ctx, y: int): Ctx
  {
    match d
    case Top => Top
    case InLeft(up, red, n, r) => InLeft(Rebase(up, y), red, n, r)
    case InRight(up, red, l, n) => InRight(up, red, l, y)
  }

  lemma {:induction false} SpineFacts(d: Ctx, c: Ctx, red: bool, l: Tree, z: int, y: int, t: Tree)
    requires Spine(d, c, red, l, z)
    ensures Plug(d, t) == Plug(c, Node(red, l, z, SpinePlug(d, t)))
    ensures Plug(Rebase(d, y), t) == Plug(c, Node(red, l, y, SpinePlug(d, t)))
    ensures CtxIds(d) == CtxIds(c) + Ids(l) + {z} + (Ids(SpinePlug(d, Leaf)))
    ensures Ids(SpinePlug(d, t)) == Ids(SpinePlug(d, Leaf)) + Ids(t)
  {
    if d.InLeft? {
      SpineFacts(d.up, c, red, l, z, y, Node(d.red, t, d.id, d.right));
      SpineFacts(d.up, c, red, l, z, y, Node(d.red, Leaf, d.id, d.right));
    }
  }

  lemma {:induction false} SpineOrder(d: Ctx, c: Ctx, red: bool, l: Tree, z: int, y: int)
    requires Spine(d, c, red, l, z)
    ensures Pre(d) == Pre(c) + Inorder(l) + [z] && Pre(Rebase(d, y)) == Pre(c) + Inorder(l) + [y]
    ensures Post(Rebase(d, y)) == Post(d)
  {
    if d.InLeft? { SpineOrder(d.up, c, red, l, z, y); }
  }

  lemma {:induction false} SpineOk(d: Ctx, c: Ctx, red: bool, l: Tree, z: int, y: int, n: nat)
    requires Spine(d, c, red, l, z) && CtxOk(d, n)
    ensures CtxOk(Rebase(d, y), n) && CtxRed(Rebase(d, y)) == CtxRed(d)
    ensures CtxId(Rebase(d, y)) == if d.InRight? then y else CtxId(d)
  {
    if d.InLeft? { SpineOk(d.up, c, red, l, z, y, if d.red then n else n + 1); }
  }

  /** y, linked where z was and above both of its subtrees. */
  lemma Replant(h: Heap, root: int, c: Ctx, z: int, k: Heap, r: int, red: bool, l: Tree, y: int, s: Tree)
    requires CtxShape(h, root, c, z) && CtxSep(c) && z !in CtxIds(c) && z != NULL && |h| == |k|
    requires Same(h, k, CtxIds(c) - {CtxId(c)}) && r == (if CtxId(c) == NULL then y else root)
    requires 0 <= CtxId(c) < |h| ==> k[CtxId(c)] == Rechild(h[CtxId(c)], z, y)
    requires 0 <= y < |k| && k[y] == RbNode(CtxId(c), Root(l), Root(s), red) && Shape(k, l, y) && Shape(k, s, y)
    requires Sep(l) && Sep(s) && y !in Ids(l) && y !in Ids(s) && Ids(l) !! Ids(s)
    requires CtxIds(c) !! Ids(l) && CtxIds(c) !! Ids(s) && y !in CtxIds(c)
    ensures Zip(k, r, c, Node(red, l, y, s))
  {
    Replaced(h, root, c, z, k, r, y);
  }

  // ---------- the sequence without z ----------

  ghost function Without(s: seq<int>, z: int): seq<int>
  {
    if s == [] then [] else if s[0] == z then s[1..] else [s[0]] + Without(s[1..], z)
  }

  lemma {:induction false} WithoutMid(a: seq<int>, z: int, b: seq<int>)
    requires z !in a
    ensures Without(a + [z] + b, z) == a + b
  {
    if a == [] {
      assert a + [z] + b == [z] + b;
    } else {
      WithoutMid(a[1..], z, b);
      assert (a + [z] + b)[1..] == a[1..] + [z] + b;
      assert [a[0]] + (a[1..] + b) == a + b;
    }
  }

  // ---------- y takes the place of z ----------

  /** Context, z, left subtree, y and right subtree share no node. */
  ghost predicate Apart(c: Ctx, z: int, l: Tree, y: int, s: Tree)
  {
    && CtxSep(c) && Sep(l) && Sep(s) && z != y && z !in CtxIds(c) + Ids(l) + Ids(s) && y !in CtxIds(c) + Ids(l) + Ids(s)
    && CtxIds(c) !! Ids(l) && CtxIds(c) !! Ids(s) && Ids(l) !! Ids(s)
  }

  lemma SubstituteReady(h: Heap, root: int, c: Ctx, z: int, l: Tree, y: int, s: Tree)
    requires Apart(c, z, l, y, s) && l.Node? && CtxShape(h, root, c, z) && Shape(h, l, z) && Shape(h, s, y)
    requires 0 <= z < |h| && h[z].parent == CtxId(c) && h[z].left == Root(l) && 0 <= y < |h|
    ensures Link(h, h[z].parent, {z, y, l.id}) && 0 <= l.id < |h| && l.id != z && l.id != y && l.id in Ids(l)
    ensures CtxId(c) !in Ids(l) && CtxId(c) !in Ids(s) && (!c.Top? ==> c.id in CtxIds(c))
  {
    CtxRange(h, root, c, z);
    ShapeRange(h, l, z);
    ShapeRange(h, s, y);
  }

  lemma OutsideSame(h: Heap, k: Heap, w: set<int>, s: set<int>)
    requires Outside(h, k, w) && w !! s
    ensures Same(h, k, s)
  {}

  lemma OutsideWider(h: Heap, k: Heap, w: set<int>, s: set<int>)
    requires Outside(h, k, w) && forall i | i in w && 0 <= i < |h| :: i in s
    ensures Outside(h, k, s)
  {}

  lemma SubstitutedShapes(h: Heap, w: set<int>, z: int, k: Heap, l: Tree, y: int, s: Tree)
    requires Sep(l) && Sep(s) && l.Node? && Shape(h, l, z) && Shape(h, s, y) && 0 <= l.id < |h|
    requires Outside(h, k, w) && k[l.id] == h[l.id].(parent := y)
    requires w !! Ids(s) && w !! (Ids(l) - {l.id})
    ensures Shape(k, l, y) && Shape(k, s, y)
  {
    OutsideSame(h, k, w, Ids(s));
    OutsideSame(h, k, w, Ids(l) - {l.id});
    ShapeFrame(h, k, s, y);
    Reparent(h, k, l, z, y);
  }

  lemma Substituted(h: Heap, root: int, c: Ctx, z: int, k: Heap, r: int, l: Tree, y: int, s: Tree)
    requires Apart(c, z, l, y, s) && l.Node? && CtxShape(h, root, c, z) && Shape(h, l, z) && Shape(h, s, y)
    requires 0 <= z < |h| && 0 <= y < |h| && 0 <= l.id < |h| && h[y].right == Root(s)
    requires CtxId(c) !in Ids(l) && CtxId(c) !in Ids(s)
    requires Outside(h, k, {CtxId(c), y, l.id}) && r == (if CtxId(c) == NULL then y else root)
    requires 0 <= CtxId(c) < |h| ==> k[CtxId(c)] == Rechild(h[CtxId(c)], z, y)
    requires k[y] == RbNode(CtxId(c), l.id, h[y].right, h[z].red) && k[l.id] == h[l.id].(parent := y)
    ensures Zip(k, r, c, Node(h[z].red, l, y, s))
  {
    var w := {CtxId(c), y, l.id};
    assert l.id in Ids(l);
    SubstitutedShapes(h, w, z, k, l, y, s);
    OutsideSame(h, k, w, CtxIds(c) - {CtxId(c)});
    Replant(h, root, c, z, k, r, h[z].red, l, y, s);
  }

  // ---------- the three ways to unlink z ----------

  /** Memory k holds the tree (c, t) of h without its focus t.id, seen from the place (e, s). */
  ghost predicate Spliced(h: Heap, c: Ctx, t: Tree, k: Heap, r: int, e: Ctx, s: Tree)
    requires t.Node?
  {
    && Zip(k, r, e, s) && CtxIds(e) + Ids(s) == CtxIds(c) + Ids(t) - {t.id}
    && Inorder(Plug(e, s)) == Without(Inorder(Plug(c, t)), t.id) && Outside(h, k, CtxIds(c) + Ids(t))
  }

  lemma {:induction false} PreIds(c: Ctx, z: int)
    requires z !in CtxIds(c)
    ensures z !in Pre(c)
  {
    match c
    case Top =>
    case InLeft(up, _, _, _) => PreIds(up, z);
    case InRight(up, _, l, _) => PreIds(up, z); InorderIds(l);
  }

  lemma WithoutRoot(p: seq<int>, l: seq<int>, z: int, r: seq<int>, q: seq<int>)
    requires z !in p && z !in l
    ensures Without(p + (l + [z] + r) + q, z) == (p + l) + (r + q)
  {
    assert p + (l + [z] + r) + q == (p + l) + [z] + (r + q);
    WithoutMid(p + l, z, r + q);
  }

  lemma WithoutAbove(p: seq<int>, l: seq<int>, z: int, y: int, r: seq<int>, q: seq<int>)
    requires z !in p && z !in l
    ensures Without((p + l + [z]) + ([] + [y] + r) + q, z) == (p + l + [y]) + r + q
  {
    assert (p + l + [z]) + ([] + [y] + r) + q == (p + l) + [z] + ([y] + r + q);
    WithoutMid(p + l, z, [y] + r + q);
    assert (p + l) + ([y] + r + q) == (p + l + [y]) + r + q;
  }

  lemma OneSide(p: seq<int>, s: seq<int>, q: seq<int>)
    ensures (p + []) + (s + q) == p + s + q && (p + s) + ([] + q) == p + s + q
  {}

  lemma SplicedChildOrder(c: Ctx, t: Tree, s: Tree)
    requires t.Node? && t.id !in CtxIds(c) && Sep(t)
    requires (t.left.Leaf? && s == t.right) || (t.right.Leaf? && s == t.left)
    ensures Inorder(Plug(c, s)) == Without(Inorder(Plug(c, t)), t.id)
  {
    PlugInorder(c, s);
    PlugInorder(c, t);
    PreIds(c, t.id);
    InorderIds(t.left);
    WithoutRoot(Pre(c), Inorder(t.left), t.id, Inorder(t.right), Post(c));
    OneSide(Pre(c), Inorder(s), Post(c));
  }

  lemma SplicedOrder(d: Ctx, c: Ctx, t: Tree, s: Tree)
    requires t.Node? && t.id !in CtxIds(c) && Sep(t) && Spine(d, c, t.red, t.left, t.id)
    requires s.Node? && s.left.Leaf? && Plug(d, s) == Plug(c, t)
    ensures Inorder(Plug(Rebase(d, s.id), s.right)) == Without(Inorder(Plug(c, t)), t.id)
  {
    PlugInorder(d, s);
    PlugInorder(Rebase(d, s.id), s.right);
    SpineOrder(d, c, t.red, t.left, t.id, s.id);
    PreIds(c, t.id);
    InorderIds(t.left);
    WithoutAbove(Pre(c), Inorder(t.left), t.id, s.id, Inorder(s.right), Post(d));
  }

  lemma ChildLink(h: Heap, c: Ctx, t: Tree, s: Tree)
    requires Shape(h, t, CtxId(c)) && Sep(t) && t.Node? && (s == t.left || s == t.right)
    requires Link(h, CtxId(c), Ids(t))
    ensures Link(h, Root(s), {t.id}) && Link(h, CtxId(c), {t.id, Root(s)})
  {}

  lemma NearReady(h: Heap, root: int, c: Ctx, t: Tree)
    requires Zip(h, root, c, t) && t.Node? && t.left.Node? && t.right.Node? && t.right.left.Leaf?
    ensures Apart(c, t.id, t.left, t.right.id, t.right.right) && CtxShape(h, root, c, t.id)
    ensures Shape(h, t.left, t.id) && Shape(h, t.right.right, t.right.id)
    ensures 0 <= t.id < |h| && h[t.id].parent == CtxId(c) && h[t.id].left == Root(t.left) && h[t.id].red == t.red
    ensures 0 <= t.right.id < |h| && h[t.right.id].right == Root(t.right.right)
    ensures t.right.id in Ids(t)
  {
    FocusFacts(h, root, c, t);
    ChildFacts(h, t.right, t.id);
  }

  lemma {:induction false} SpineIds(d: Ctx, c: Ctx, red: bool, l: Tree, z: int, y: int)
    requires Spine(d, c, red, l, z) && CtxSep(d)
    ensures z in CtxIds(d) && CtxIds(Rebase(d, y)) == CtxIds(d) - {z} + {y}
  {
    if d.InLeft? { SpineIds(d.up, c, red, l, z, y); }
  }

  lemma SplicedIds(d: Ctx, c: Ctx, t: Tree, s: Tree)
    requires t.Node? && Spine(d, c, t.red, t.left, t.id) && CtxSep(d) && s.Node? && s.left.Leaf? && Plug(d, s) == Plug(c, t)
    requires CtxIds(d) !! Ids(s)
    ensures CtxIds(Rebase(d, s.id)) + Ids(s.right) == CtxIds(c) + Ids(t) - {t.id}
  {
    PlugIds(d, s);
    PlugIds(c, t);
    SpineIds(d, c, t.red, t.left, t.id, s.id);
  }

  lemma {:induction false} SpineNode(d: Ctx, t: Tree)
    requires d.InLeft? || t.Node?
    ensures SpinePlug(d, t).Node?
  {
    if d.InLeft? { SpineNode(d.up, Node(d.red, t, d.id, d.right)); }
  }

  /** With y gone, the focus can move back up to z, whose right subtree is still not empty. */
  lemma AfterDetach(h: Heap, r: int, d: Ctx, c: Ctx, t: Tree, s: Tree)
    requires s.Node? && Zip(h, r, d, s.right) && t.Node? && d.InLeft? && Spine(d, c, t.red, t.left, t.id)
    ensures var v := SpinePlug(d, s.right);
            && Zip(h, r, c, Node(t.red, t.left, t.id, v)) && v.Node? && Ids(v) <= CtxIds(d) + Ids(s.right)
            && CtxIds(c) + Ids(t.left) + {t.id} <= CtxIds(d)
            && 0 <= t.id < |h| && h[t.id].right == v.id && 0 <= v.id < |h| && v.id in Ids(v)
  {
    SpineFacts(d, c, t.red, t.left, t.id, s.id, s.right);
    SpineNode(d, s.right);
    ZipWhole(h, r, d, s.right);
    ZipInto(h, r, c, Node(t.red, t.left, t.id, SpinePlug(d, s.right)));
    FocusFacts(h, r, c, Node(t.red, t.left, t.id, SpinePlug(d, s.right)));
  }

  /** The right subtree of z hung under y. */
  lemma Rehung(h: Heap, r: int, c: Ctx, t: Tree, y: int, v: Tree, k: Heap)
    requires t.Node? && v.Node? && Zip(h, r, c, Node(t.red, t.left, t.id, v))
    requires 0 <= y < |h| && 0 <= v.id < |h| && y !in CtxIds(c) && y !in Ids(t.left) + {t.id} + Ids(v)
    requires Outside(h, k, {y, v.id}) && k[v.id] == h[v.id].(parent := y)
    ensures Apart(c, t.id, t.left, y, v) && CtxShape(k, r, c, t.id) && Shape(k, t.left, t.id) && Shape(k, v, y)
    ensures 0 <= t.id < |k| && k[t.id] == RbNode(CtxId(c), Root(t.left), v.id, t.red)
  {
    var u := Node(t.red, t.left, t.id, v);
    assert v.id in Ids(v);
    FocusFacts(h, r, c, u);
    OutsideSame(h, k, {y, v.id}, CtxIds(c));
    OutsideSame(h, k, {y, v.id}, Ids(t.left));
    OutsideSame(h, k, {y, v.id}, Ids(v) - {v.id});
    CtxFrame(h, k, r, c, t.id);
    ShapeFrame(h, k, t.left, t.id);
    Reparent(h, k, v, t.id, y);
  }

  lemma OutsideBoth(g: Heap, h: Heap, k: Heap, a: set<int>, b: set<int>, s: set<int>)
    requires Outside(g, h, a) && Outside(h, k, b) && a <= s && b <= s
    ensures Outside(g, k, s)
  {}

  lemma FarIds(d: Ctx, c: Ctx, t: Tree, s: Tree)
    requires t.Node? && s.Node? && Plug(d, s) == Plug(c, t)
    ensures CtxIds(d) + Ids(s) == CtxIds(c) + Ids(t) && CtxIds(c) + Ids(t.left) + {s.id} <= CtxIds(c) + Ids(t)
  {
    PlugIds(d, s);
    PlugIds(c, t);
    assert s.id in CtxIds(d) + Ids(s);
  }

  lemma FarOutside(g: Heap, h: Heap, k: Heap, d: Ctx, c: Ctx, t: Tree, s: Tree)
    requires t.Node? && s.Node? && Plug(d, s) == Plug(c, t)
    requires Outside(g, h, CtxIds(d) + Ids(s)) && Outside(h, k, CtxIds(c) + Ids(t.left) + {s.id})
    ensures Outside(g, k, CtxIds(c) + Ids(t))
  {
    FarIds(d, c, t, s);
    OutsideBoth(g, h, k, CtxIds(d) + Ids(s), CtxIds(c) + Ids(t.left) + {s.id}, CtxIds(c) + Ids(t));
  }

  lemma FarZip(k: Heap, r: int, d: Ctx, c: Ctx, t: Tree, s: Tree)
    requires t.Node? && s.Node? && Zip(k, r, c, Node(t.red, t.left, s.id, SpinePlug(d, s.right)))
    requires Spine(d, c, t.red, t.left, t.id)
    ensures Zip(k, r, Rebase(d, s.id), s.right)
  {
    SpineFacts(d, c, t.red, t.left, t.id, s.id, s.right);
    ZipWhole(k, r, c, Node(t.red, t.left, s.id, SpinePlug(d, s.right)));
    ZipInto(k, r, Rebase(d, s.id), s.right);
  }

  lemma FarDone(g: Heap, h: Heap, k: Heap, r: int, d: Ctx, c: Ctx, t: Tree, s: Tree)
    requires t.Node? && s.Node? && Zip(k, r, c, Node(t.red, t.left, s.id, SpinePlug(d, s.right)))
    requires s.left.Leaf? && Plug(d, s) == Plug(c, t) && CtxSep(d) && CtxIds(d) !! Ids(s)
    requires Spine(d, c, t.red, t.left, t.id) && t.id !in CtxIds(c) && Sep(t)
    requires Outside(g, h, CtxIds(d) + Ids(s)) && Outside(h, k, CtxIds(c) + Ids(t.left) + {s.id})
    ensures Spliced(g, c, t, k, r, Rebase(d, s.id), s.right)
  {
    FarOutside(g, h, k, d, c, t, s);
    FarZip(k, r, d, c, t, s);
    SplicedOrder(d, c, t, s);
    SplicedIds(d, c, t, s);
  }

  /** The hole's parent is z exactly when the path is empty. */
  lemma SpineBase(d: Ctx, c: Ctx, red: bool, l: Tree, z: int)
    requires Spine(d, c, red, l, z) && CtxSep(d)
    ensures CtxId(d) == z <==> d.InRight?
  {
    if d.InLeft? { SpineIds(d.up, c, red, l, z, z); }
  }

  lemma {:induction false} PlugInjective(c: Ctx, t: Tree, u: Tree)
    requires Plug(c, t) == Plug(c, u)
    ensures t == u
  {
    if !c.Top? { PlugInjective(c.up, Grow(c, t), Grow(c, u)); }
  }

  /** A zipper focused on z, with the black heights on both sides of the focus. */
  lemma Locate(h: Heap, root: int, t: Tree, z: int) returns (c: Ctx, u: Tree, n: nat)
    requires Zip(h, root, Top, t) && Valid(t) && z in Ids(t)
    ensures Zip(h, root, c, u) && Plug(c, u) == t && u.Node? && u.id == z
    ensures CtxOk(c, n) && RB(u, n) && !(IsRed(u) && CtxRed(c))
  {
    c, u := Top, t;
    n :| RB(t, n);
    while u.id != z
      invariant Zip(h, root, c, u) && Plug(c, u) == t && z in Ids(u)
      invariant CtxOk(c, n) && RB(u, n) && !(IsRed(u) && CtxRed(c))
      decreases u
    {
      if z in Ids(u.left) {
        ZipLeft(h, root, c, u);
        c, u, n := InLeft(c, u.red, u.id, u.right), u.left, if u.red then n else n - 1;
      } else {
        ZipRight(h, root, c, u);
        c, u, n := InRight(c, u.red, u.left, u.id), u.right, if u.red then n else n - 1;
      }
    }
  }

  lemma UnlinkedRange(h: Heap, root: int, c: Ctx, u: Tree)
    requires Zip(h, root, c, u) && u.Node?
    ensures 0 <= u.id < |h|
  {}
}
