/** Trees laid out in memory: the rb_node fields of the process table, and when they represent a tree. */
module RbHeap {
  import opened RbTree

  const NULL := -1

  /** rb_node_t; a pointer is an index into the process table or NULL. */
  datatype RbNode = RbNode(parent: int, left: int, right: int, red: bool)

  type Heap = seq<RbNode>

  ghost function Root(t: Tree): int { if t.Leaf? then NULL else t.id }

  ghost function CtxId(c: Ctx): int { if c.Top? then NULL else c.id }

  /** The nodes of t are linked as t says, under the given parent. */
  ghost predicate Shape(h: Heap, t: Tree, parent: int)
  {
    t.Node? ==>
      0 <= t.id < |h| && h[t.id] == RbNode(parent, Root(t.left), Root(t.right), t.red)
      && Shape(h, t.left, t.id) && Shape(h, t.right, t.id)
  }

  /** The nodes around a hole that points to p are linked as c says. */
  ghost predicate CtxShape(h: Heap, root: int, c: Ctx, p: int)
  {
    match c
    case Top => root == p
    case InLeft(up, red, n, r) =>
      0 <= n < |h| && h[n] == RbNode(CtxId(up), p, Root(r), red) && Shape(h, r, n) && CtxShape(h, root, up, n)
    case InRight(up, red, l, n) =>
      0 <= n < |h| && h[n] == RbNode(CtxId(up), Root(l), p, red) && Shape(h, l, n) && CtxShape(h, root, up, n)
  }

  /** Memory holds the tree Plug(c, t), with all nodes distinct. */
  ghost predicate Zip(h: Heap, root: int, c: Ctx, t: Tree)
  {
    CtxShape(h, root, c, Root(t)) && Shape(h, t, CtxId(c)) && CtxSep(c) && Sep(t) && CtxIds(c) !! Ids(t)
  }

  /** h and k agree on the nodes in s. */
  ghost predicate Same(h: Heap, k: Heap, s: set<int>)
  {
    |h| == |k| && forall i | i in s && 0 <= i < |h| :: h[i] == k[i]
  }

  lemma {:induction false} ShapeFrame(h: Heap, k: Heap, t: Tree, parent: int)
    requires Shape(h, t, parent) && Same(h, k, Ids(t))
    ensures Shape(k, t, parent)
  {
    if t.Node? {
      ShapeFrame(h, k, t.left, t.id);
      ShapeFrame(h, k, t.right, t.id);
    }
  }

  lemma {:induction false} CtxFrame(h: Heap, k: Heap, root: int, c: Ctx, p: int)
    requires CtxShape(h, root, c, p) && Same(h, k, CtxIds(c))
    ensures CtxShape(k, root, c, p)
  {
    match c
    case Top =>
    case InLeft(up, _, n, r) => ShapeFrame(h, k, r, n); CtxFrame(h, k, root, up, n);
    case InRight(up, _, l, n) => ShapeFrame(h, k, l, n); CtxFrame(h, k, root, up, n);
  }

  lemma {:induction false} ShapeRange(h: Heap, t: Tree, parent: int)
    requires Shape(h, t, parent)
    ensures forall i | i in Ids(t) :: 0 <= i < |h|
  {
    if t.Node? {
      ShapeRange(h, t.left, t.id);
      ShapeRange(h, t.right, t.id);
    }
  }

  lemma {:induction false} CtxRange(h: Heap, root: int, c: Ctx, p: int)
    requires CtxShape(h, root, c, p)
    ensures forall i | i in CtxIds(c) :: 0 <= i < |h|
  {
    match c
    case Top =>
    case InLeft(up, _, n, r) => ShapeRange(h, r, n); CtxRange(h, root, up, n);
    case InRight(up, _, l, n) => ShapeRange(h, l, n); CtxRange(h, root, up, n);
  }

  /** Moving the focus to the parent changes nothing in memory. */
  lemma ZipUp(h: Heap, root: int, c: Ctx, t: Tree)
    requires Zip(h, root, c, t) && !c.Top?
    ensures Zip(h, root, c.up, if c.InLeft? then Node(c.red, t, c.id, c.right) else Node(c.red, c.left, c.id, t))
  {}

  lemma ZipLeft(h: Heap, root: int, c: Ctx, t: Tree)
    requires Zip(h, root, c, t) && t.Node?
    ensures Zip(h, root, InLeft(c, t.red, t.id, t.right), t.left)
  {}

  lemma ZipRight(h: Heap, root: int, c: Ctx, t: Tree)
    requires Zip(h, root, c, t) && t.Node?
    ensures Zip(h, root, InRight(c, t.red, t.left, t.id), t.right)
  {}

  lemma {:induction false} ZipWhole(h: Heap, root: int, c: Ctx, t: Tree)
    requires Zip(h, root, c, t)
    ensures Zip(h, root, Top, Plug(c, t))
  {
    if !c.Top? {
      ZipUp(h, root, c, t);
      ZipWhole(h, root, c.up, if c.InLeft? then Node(c.red, t, c.id, c.right) else Node(c.red, c.left, c.id, t));
    }
  }

  /** A subtree whose root got a new parent pointer. */
  lemma Reparent(h: Heap, k: Heap, t: Tree, p: int, q: int)
    requires Shape(h, t, p) && Sep(t) && |h| == |k|
    requires Same(h, k, Ids(t) - {Root(t)})
    requires t.Node? ==> k[t.id] == h[t.id].(parent := q)
    ensures Shape(k, t, q)
  {
    if t.Node? {
      ShapeFrame(h, k, t.left, t.id);
      ShapeFrame(h, k, t.right, t.id);
    }
  }

  /** A context whose hole got a new pointer. */
  lemma Rehole(h: Heap, k: Heap, root: int, c: Ctx, p: int, q: int)
    requires CtxShape(h, root, c, p) && CtxSep(c) && !c.Top? && |h| == |k|
    requires Same(h, k, CtxIds(c) - {c.id})
    requires k[c.id] == if c.InLeft? then h[c.id].(left := q) else h[c.id].(right := q)
    ensures CtxShape(k, root, c, q)
  {
    ShapeFrame(h, k, if c.InLeft? then c.right else c.left, c.id);
    CtxFrame(h, k, root, c.up, c.id);
  }
}
