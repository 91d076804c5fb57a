/** The pointer code of the run-queue trees (rb_rotate_left to rb_remove_node), statement by statement. */
module RbCode {
  import opened RbTree
  import opened RbHeap
  import opened RbSteps
  import opened RbDelete
  import opened RbSplice

  class Forest {
    /** The rq_node and the priority of every process. */
    var nodes: Heap
    var priority: seq<int>

    method SetLeft(i: int, v: int)
      requires 0 <= i < |nodes|
      modifies this`nodes
      ensures Outside(old(nodes), nodes, {i}) && nodes[i] == old(nodes)[i].(left := v)
    {
      nodes := nodes[i := nodes[i].(left := v)];
    }

    method SetRight(i: int, v: int)
      requires 0 <= i < |nodes|
      modifies this`nodes
      ensures Outside(old(nodes), nodes, {i}) && nodes[i] == old(nodes)[i].(right := v)
    {
      nodes := nodes[i := nodes[i].(right := v)];
    }

    method SetParent(i: int, v: int)
      requires 0 <= i < |nodes|
      modifies this`nodes
      ensures Outside(old(nodes), nodes, {i}) && nodes[i] == old(nodes)[i].(parent := v)
    {
      nodes := nodes[i := nodes[i].(parent := v)];
    }

    method SetRed(i: int, red: bool)
      requires 0 <= i < |nodes|
      modifies this`nodes
      ensures Outside(old(nodes), nodes, {i}) && nodes[i] == old(nodes)[i].(red := red)
    {
      nodes := nodes[i := nodes[i].(red := red)];
    }

    /** rb_rotate_left at x. */
    method RotateLeft(root: int, x: int) returns (r: int)
      requires 0 <= x < |nodes| && 0 <= nodes[x].right < |nodes| && nodes[x].right != x
      requires var y := nodes[x].right; Link(nodes, nodes[y].left, {x, y, nodes[x].parent}) && Link(nodes, nodes[x].parent, {x, y})
      modifies this`nodes
      ensures RotatedLeft(old(nodes), root, x, nodes, r)
    {
      var y := nodes[x].right;
      SetRight(x, nodes[y].left);
      if nodes[y].left != NULL { SetParent(nodes[y].left, x); }
      SetParent(y, nodes[x].parent);
      r := root;
      if nodes[x].parent == NULL { r := y; }
      else if x == nodes[nodes[x].parent].left { SetLeft(nodes[x].parent, y); }
      else { SetRight(nodes[x].parent, y); }
      SetLeft(y, x);
      SetParent(x, y);
    }
  
    /** rb_rotate_right at x. */
    method RotateRight(root: int, x: int) returns (r: int)
      requires 0 <= x < |nodes| && 0 <= nodes[x].left < |nodes| && nodes[x].left != x
      requires var y := nodes[x].left; Link(nodes, nodes[y].right, {x, y, nodes[x].parent}) && Link(nodes, nodes[x].parent, {x, y})
      requires nodes[x].parent != NULL ==> nodes[nodes[x].parent].left != nodes[nodes[x].parent].right
      requires nodes[x].parent != NULL ==> x == nodes[nodes[x].parent].left || x == nodes[nodes[x].parent].right
      modifies this`nodes
      ensures RotatedRight(old(nodes), root, x, nodes, r)
    {
      var y := nodes[x].left;
      SetLeft(x, nodes[y].right);
      if nodes[y].right != NULL { SetParent(nodes[y].right, x); }
      SetParent(y, nodes[x].parent);
      r := root;
      if nodes[x].parent == NULL { r := y; }
      else if x == nodes[nodes[x].parent].right { SetRight(nodes[x].parent, y); }
      else { SetLeft(nodes[x].parent, y); }
      SetRight(y, x);
      SetParent(x, y);
    }
  
    /** Rotation at the focus, as trees. */
    method RotateLeftAt(root: int, x: int, ghost c: Ctx, ghost t: Tree) returns (r: int)
      requires Zip(nodes, root, c, t) && t.Node? && t.id == x && t.right.Node?
      modifies this`nodes
      ensures Zip(nodes, r, c, RotL(t)) && Outside(old(nodes), nodes, CtxIds(c) + Ids(t))
    {
      FocusFacts(nodes, root, c, t);
      ChildFacts(nodes, t.right, t.id);
      r := RotateLeft(root, x);
      LeftRotation(old(nodes), root, c, t, nodes, r);
    }

    method RotateRightAt(root: int, x: int, ghost c: Ctx, ghost t: Tree) returns (r: int)
      requires Zip(nodes, root, c, t) && t.Node? && t.id == x && t.left.Node?
      modifies this`nodes
      ensures Zip(nodes, r, c, RotR(t)) && Outside(old(nodes), nodes, CtxIds(c) + Ids(t))
    {
      FocusFacts(nodes, root, c, t);
      ChildFacts(nodes, t.left, t.id);
      r := RotateRight(root, x);
      RightRotation(old(nodes), root, c, t, nodes, r);
    }
  
    /** z->parent->color = 0; y->color = 0; gp->color = 1 */
    method InsertRecolor(root: int, p: int, y: int, gp: int, ghost c: Ctx, ghost t: Tree)
      requires Zip(nodes, root, c, t) && t.Node? && t.left.Node? && t.right.Node? && t.id == gp
      requires (p == t.left.id && y == t.right.id) || (p == t.right.id && y == t.left.id)
      modifies this`nodes
      ensures Zip(nodes, root, c, Paint(t, true, false, false)) && Outside(old(nodes), nodes, CtxIds(c) + Ids(t))
    {
      PaintReady(nodes, root, c, t);
      SetRed(p, false);
      SetRed(y, false);
      SetRed(gp, true);
      PaintZip(old(nodes), root, c, t, nodes, true, false, false);
    }

    /** q->color = 0; gp->color = 1; rb_rotate_right(root, gp) */
    method PaintTurnRight(root: int, q: int, gp: int, ghost c: Ctx, ghost t: Tree) returns (r: int)
      requires Zip(nodes, root, c, t) && t.Node? && t.left.Node? && t.left.id == q && t.id == gp
      modifies this`nodes
      ensures Zip(nodes, r, c, RotR(Paint(t, true, false, IsRed(t.right))))
      ensures Outside(old(nodes), nodes, CtxIds(c) + Ids(t))
    {
      PaintReady(nodes, root, c, t);
      SetRed(q, false);
      SetRed(gp, true);
      PaintZip(old(nodes), root, c, t, nodes, true, false, IsRed(t.right));
      PaintFacts(t, true, false, IsRed(t.right));
      r := RotateRightAt(root, gp, c, Paint(t, true, false, IsRed(t.right)));
    }

    method PaintTurnLeft(root: int, q: int, gp: int, ghost c: Ctx, ghost t: Tree) returns (r: int)
      requires Zip(nodes, root, c, t) && t.Node? && t.right.Node? && t.right.id == q && t.id == gp
      modifies this`nodes
      ensures Zip(nodes, r, c, RotL(Paint(t, true, IsRed(t.left), false)))
      ensures Outside(old(nodes), nodes, CtxIds(c) + Ids(t))
    {
      PaintReady(nodes, root, c, t);
      SetRed(q, false);
      SetRed(gp, true);
      PaintZip(old(nodes), root, c, t, nodes, true, IsRed(t.left), false);
      PaintFacts(t, true, IsRed(t.left), false);
      r := RotateLeftAt(root, gp, c, Paint(t, true, IsRed(t.left), false));
    }
  
    /** The case of a red uncle, on either side. */
    method InsertStepUncle(root: int, z: int, ghost c: Ctx, ghost t: Tree, ghost n: nat) returns (z2: int, ghost d: Ctx, ghost u: Tree)
      requires Fixing(nodes, root, z, c, t, n) && t.red && CtxRed(c) && !c.up.Top?
      requires IsRed(if c.up.InLeft? then c.up.right else c.up.left)
      modifies this`nodes
      ensures Fixing(nodes, root, z2, d, u, n + 1) && SameNodes(old(nodes), c, t, nodes, d, u) && Depth(d) < Depth(c)
    {
      ghost var g := Grow(c.up, Grow(c, t));
      ZipUp(nodes, root, c, t);
      ZipUp(nodes, root, c.up, Grow(c, t));
      FocusFacts(nodes, root, c, t);
      FocusFacts(nodes, root, c.up, Grow(c, t));
      FocusFacts(nodes, root, c.up.up, g);
      var p := nodes[z].parent;
      var gp := nodes[p].parent;
      var y := if p == nodes[gp].left then nodes[gp].right else nodes[gp].left;
      InsertRecolor(root, p, y, gp, c.up.up, g);
      RecolorOk(c, t, n);
      RecolorSame(old(nodes), nodes, c, t, c.up.up, g);
      z2, d, u := gp, c.up.up, Paint(g, true, false, false);
    }
  
    /** The case of a black uncle when the parent is a left child. */
    method InsertStepLeft(root: int, z: int, ghost c: Ctx, ghost t: Tree, ghost n: nat) returns (r: int, z2: int)
      requires Fixing(nodes, root, z, c, t, n) && t.red && CtxRed(c) && c.up.InLeft? && !IsRed(c.up.right)
      modifies this`nodes
      ensures Fixing(nodes, r, z2, c.up.up, TurnedRight(c, t), n + 1) && !IsRed(TurnedRight(c, t))
      ensures SameNodes(old(nodes), c, t, nodes, c.up.up, TurnedRight(c, t))
    {
      ghost var q := Grow(c, t);
      ZipUp(nodes, root, c, t);
      ZipUp(nodes, root, c.up, q);
      FocusFacts(nodes, root, c, t);
      FocusFacts(nodes, root, c.up, q);
      GrowFacts(c, t);
      GrowFacts(c.up, q);
      var gp := nodes[nodes[z].parent].parent;
      z2, r := z, root;
      if z == nodes[nodes[z].parent].right {
        z2 := nodes[z].parent;
        r := RotateLeftAt(r, z2, c.up, q);
        RotLIds(q);
        q := RotL(q);
      }
      ghost var m := nodes;
      ZipUp(nodes, r, c.up, q);
      GrowFacts(c.up, q);
      FocusFacts(nodes, r, c.up, q);
      ChildFacts(nodes, q.left, q.id);
      r := PaintTurnRight(r, nodes[z2].parent, gp, c.up.up, Grow(c.up, q));
      TurnRightSame(old(nodes), m, nodes, c, t);
      TurnedRightOk(c, t, n);
      FocusFacts(nodes, r, c.up.up, TurnedRight(c, t));
      ChildFacts(nodes, TurnedRight(c, t).left, TurnedRight(c, t).id);
    }

    /** The case of a black uncle when the parent is a right child. */
    method InsertStepRight(root: int, z: int, ghost c: Ctx, ghost t: Tree, ghost n: nat) returns (r: int, z2: int)
      requires Fixing(nodes, root, z, c, t, n) && t.red && CtxRed(c) && c.up.InRight? && !IsRed(c.up.left)
      modifies this`nodes
      ensures Fixing(nodes, r, z2, c.up.up, TurnedLeft(c, t), n + 1) && !IsRed(TurnedLeft(c, t))
      ensures SameNodes(old(nodes), c, t, nodes, c.up.up, TurnedLeft(c, t))
    {
      ghost var q := Grow(c, t);
      ZipUp(nodes, root, c, t);
      ZipUp(nodes, root, c.up, q);
      FocusFacts(nodes, root, c, t);
      FocusFacts(nodes, root, c.up, q);
      GrowFacts(c, t);
      GrowFacts(c.up, q);
      var gp := nodes[nodes[z].parent].parent;
      z2, r := z, root;
      if z == nodes[nodes[z].parent].left {
        z2 := nodes[z].parent;
        r := RotateRightAt(r, z2, c.up, q);
        RotRIds(q);
        q := RotR(q);
      }
      ghost var m := nodes;
      ZipUp(nodes, r, c.up, q);
      GrowFacts(c.up, q);
      FocusFacts(nodes, r, c.up, q);
      ChildFacts(nodes, q.right, q.id);
      r := PaintTurnLeft(r, nodes[z2].parent, gp, c.up.up, Grow(c.up, q));
      TurnLeftSame(old(nodes), m, nodes, c, t);
      TurnedLeftOk(c, t, n);
      FocusFacts(nodes, r, c.up.up, TurnedLeft(c, t));
      ChildFacts(nodes, TurnedLeft(c, t).right, TurnedLeft(c, t).id);
    }
  
    /** One turn of the loop of rb_insert_fixup, the grandparent being gp. */
    method InsertStep(root: int, z: int, gp: int, ghost c: Ctx, ghost t: Tree, ghost n: nat)
      returns (r: int, z2: int, ghost d: Ctx, ghost u: Tree)
      requires Fixing(nodes, root, z, c, t, n) && t.red && CtxRed(c) && !c.up.Top? && gp == c.up.id
      modifies this`nodes
      ensures Fixing(nodes, r, z2, d, u, n + 1) && SameNodes(old(nodes), c, t, nodes, d, u)
      ensures u.red ==> Depth(d) < Depth(c)
      ensures Guarded(nodes, z2, d, u)
    {
      Around(nodes, root, c, t);
      if nodes[z].parent == nodes[gp].left {
        var y := nodes[gp].right;
        if y != NULL && nodes[y].red {
          r := root;
          z2, d, u := InsertStepUncle(root, z, c, t, n);
        } else {
          d, u := c.up.up, TurnedRight(c, t);
          r, z2 := InsertStepLeft(root, z, c, t, n);
        }
      } else {
        var y := nodes[gp].left;
        if y != NULL && nodes[y].red {
          r := root;
          z2, d, u := InsertStepUncle(root, z, c, t, n);
        } else {
          d, u := c.up.up, TurnedLeft(c, t);
          r, z2 := InsertStepRight(root, z, c, t, n);
        }
      }
      FixupParent(nodes, r, z2, d, u, n + 1);
    }

    /** root->root->color = 0 */
    method BlackRoot(root: int, ghost t: Tree) returns (ghost w: Tree)
      requires Zip(nodes, root, Top, t) && t.Node?
      modifies this`nodes
      ensures w == Blacken(t) && Zip(nodes, root, Top, w) && Ids(w) == Ids(t) && Inorder(w) == Inorder(t)
      ensures Outside(old(nodes), nodes, Ids(t))
    {
      SetRed(root, false);
      BlackenZip(old(nodes), nodes, root, t);
      w := Blacken(t);
    }

    method InsertEnd(root: int, ghost c: Ctx, ghost t: Tree, ghost n: nat) returns (ghost w: Tree)
      requires Zip(nodes, root, c, t) && t.Node? && CtxOk(c, n) && RB(t, n)
      requires IsRed(t) && CtxRed(c) ==> c.up.Top?
      modifies this`nodes
      ensures Zip(nodes, root, Top, w) && Valid(w) && Inorder(w) == Inorder(Plug(c, t)) && Ids(w) == CtxIds(c) + Ids(t)
      ensures Outside(old(nodes), nodes, Ids(w))
    {
      ZipWhole(nodes, root, c, t);
      PlugIds(c, t);
      PlugValid(c, t, n);
      w := BlackRoot(root, Plug(c, t));
    }

    /** rb_insert_fixup */
    method InsertFixup(root: int, z0: int, ghost c0: Ctx, ghost t0: Tree, ghost n0: nat) returns (r: int, ghost w: Tree)
      requires Fixing(nodes, root, z0, c0, t0, n0)
      modifies this`nodes
      ensures Zip(nodes, r, Top, w) && Valid(w) && Inorder(w) == Inorder(Plug(c0, t0)) && Ids(w) == CtxIds(c0) + Ids(t0)
      ensures Outside(old(nodes), nodes, Ids(w))
    {
      var z := z0;
      ghost var c, t, n := c0, t0, n0;
      r := root;
      FixupParent(nodes, r, z, c, t, n);
      while nodes[z].parent != NULL && nodes[nodes[z].parent].red
        invariant Fixing(nodes, r, z, c, t, n) && Guarded(nodes, z, c, t)
        invariant SameNodes(old(nodes), c0, t0, nodes, c, t)
        decreases if t.red then 1 + Depth(c) else 0
      {
        var gp := nodes[nodes[z].parent].parent;
        if gp == NULL { break; }
        ghost var h, d, u := nodes, c, t;
        r, z, c, t := InsertStep(r, z, gp, c, t, n);
        SameTrans(old(nodes), c0, t0, h, d, u, nodes, c, t);
        n := n + 1;
      }
      w := InsertEnd(r, c, t, n);
    }

    /** The search loop of rb_insert. */
    method InsertPoint(root: int, key: int, ghost t: Tree) returns (parent: int, ghost c: Ctx)
      requires Zip(nodes, root, Top, t) && Valid(t) && |nodes| == |priority|
      requires InTable(Inorder(t), priority) && Sorted(Inorder(t), priority)
      ensures parent == CtxId(c) && Descending(nodes, root, t, c, Leaf, 0, key, priority)
    {
      var x := root;
      parent, c := NULL, Top;
      ghost var s := t;
      ghost var n: nat :| RB(t, n);
      while x != NULL
        invariant Descending(nodes, root, t, c, s, n, key, priority) && x == Root(s) && parent == CtxId(c)
        decreases s
      {
        FocusFacts(nodes, root, c, s);
        parent := x;
        if key < priority[x] {
          DescendLeft(nodes, root, t, c, s, n, key, priority);
          x := nodes[x].left;
          c, s, n := InLeft(c, s.red, s.id, s.right), s.left, if s.red then n else n - 1;
        } else {
          DescendRight(nodes, root, t, c, s, n, key, priority);
          x := nodes[x].right;
          c, s, n := InRight(c, s.red, s.left, s.id), s.right, if s.red then n else n - 1;
        }
      }
      FocusRoot(nodes, root, c, s);
    }
  
    /** rb_insert: z goes behind every node that is not greater, and the tree stays red-black. */
    method Insert(root: int, z: int, ghost t: Tree) returns (r: int, ghost w: Tree)
      requires Zip(nodes, root, Top, t) && Valid(t) && z !in Ids(t) && 0 <= z < |nodes| == |priority|
      requires InTable(Inorder(t), priority) && Sorted(Inorder(t), priority)
      modifies this`nodes
      ensures Zip(nodes, r, Top, w) && Valid(w) && Inorder(w) == Placed(Inorder(t), z, priority) && Ids(w) == Ids(t) + {z}
      ensures Outside(old(nodes), nodes, Ids(w))
    {
      var key := priority[z];
      nodes := nodes[z := RbNode(NULL, NULL, NULL, true)];
      ShapeFrame(old(nodes), nodes, t, NULL);
      ghost var c;
      var parent;
      parent, c := InsertPoint(root, key, t);
      ghost var h := nodes;
      PlugIds(c, Leaf);
      LinkReady(h, root, c);
      SetParent(z, parent);
      r := root;
      if parent == NULL { r := z; }
      else if key < priority[parent] { SetLeft(parent, z); }
      else { SetRight(parent, z); }
      ghost var l := Node(true, Leaf, z, Leaf);
      Linked(h, root, c, z, nodes, r, key, priority);
      r, w := InsertFixup(r, z, c, l, 0);
      InsertedAt(c, z, priority);
    }
  
    // ---------- rb_delete_fixup, hole on the left ----------

    /** w->color = 0; x_parent->color = 1; rb_rotate_left(root, x_parent) */
    method RedSiblingTurnLeft(root: int, xp: int, w: int, ghost c: Ctx, ghost t: Tree) returns (r: int)
      requires Zip(nodes, root, c, t) && c.InLeft? && c.right.Node? && c.id == xp && c.right.id == w
      modifies this`nodes
      ensures Zip(nodes, r, RedSiblingLeft(c), t) && SameNodes(old(nodes), c, t, nodes, RedSiblingLeft(c), t)
    {
      ghost var g := Grow(c, t);
      ghost var p := Paint(g, true, IsRed(t), false);
      ZipUp(nodes, root, c, t);
      PaintReady(nodes, root, c.up, g);
      SetRed(w, false);
      SetRed(xp, true);
      PaintZip(old(nodes), root, c.up, g, nodes, true, IsRed(t), false);
      PaintFacts(g, true, IsRed(t), false);
      r := RotateLeftAt(root, xp, c.up, p);
      ghost var u := RotL(p);
      RotLInorder(p);
      RotLIds(p);
      Resubtree(old(nodes), nodes, c.up, g, u);
      ZipLeft(nodes, r, c.up, u);
      ZipLeft(nodes, r, InLeft(c.up, u.red, u.id, u.right), u.left);
      UpSame(old(nodes), c, t);
      UpSame(nodes, RedSiblingLeft(c), t);
      UpSame(nodes, RedSiblingLeft(c).up, u.left);
    }

    /** w->color = 1; x = x_parent */
    method SiblingRedLeft(root: int, w: int, ghost c: Ctx, ghost t: Tree)
      requires Zip(nodes, root, c, t) && c.InLeft? && c.right.Node? && c.right.id == w
      modifies this`nodes
      ensures Zip(nodes, root, c.up, Grow(PaintSibling(c), t))
      ensures SameNodes(old(nodes), c, t, nodes, c.up, Grow(PaintSibling(c), t))
    {
      ghost var g := Grow(c, t);
      ZipUp(nodes, root, c, t);
      PaintReady(nodes, root, c.up, g);
      SetRed(w, true);
      PaintZip(old(nodes), root, c.up, g, nodes, c.red, IsRed(t), true);
      PaintFacts(g, c.red, IsRed(t), true);
      assert Paint(g, c.red, IsRed(t), true) == Grow(PaintSibling(c), t);
      UpSame(old(nodes), c, t);
      Resubtree(old(nodes), nodes, c.up, g, Grow(PaintSibling(c), t));
    }

    /** w->left->color = 0; w->color = 1; rb_rotate_right(root, w) */
    method StraightenLeft(root: int, w: int, ghost c: Ctx, ghost t: Tree) returns (r: int)
      requires Zip(nodes, root, c, t) && c.InLeft? && c.right.Node? && c.right.id == w
      requires IsRed(c.right.left) && !IsRed(c.right.right)
      modifies this`nodes
      ensures Zip(nodes, r, c.(right := Outer(c)), t) && SameNodes(old(nodes), c, t, nodes, c.(right := Outer(c)), t)
    {
      ghost var d := InRight(c.up, c.red, t, c.id);
      ghost var s := c.right;
      ZipUp(nodes, root, c, t);
      ZipRight(nodes, root, c.up, Grow(c, t));
      FocusFacts(nodes, root, d, s);
      r := PaintTurnRight(root, nodes[w].left, w, d, s);
      SameTurnRight(old(nodes), nodes, d, s);
      ZipUp(nodes, r, d, Outer(c));
      ZipLeft(nodes, r, c.up, Grow(d, Outer(c)));
      SameAcrossLeft(old(nodes), nodes, c, t, Outer(c));
    }

    /** w->color = x_parent->color; x_parent->color = 0; w->right->color = 0 */
    method FinishPaintLeft(root: int, xp: int, w: int, ghost c: Ctx, ghost t: Tree)
      requires Zip(nodes, root, c, t) && c.InLeft? && c.right.Node? && c.right.right.Node? && c.id == xp && c.right.id == w
      modifies this`nodes
      ensures var v := Paint(c.right, c.red, IsRed(c.right.left), false);
              Zip(nodes, root, c.up, Node(false, t, c.id, v)) && Outside(old(nodes), nodes, CtxIds(c) + Ids(t))
    {
      FinishReadyLeft(nodes, root, c, t);
      SetRed(w, nodes[xp].red);
      SetRed(xp, false);
      SetRed(nodes[w].right, false);
      FinishPaintedLeft(old(nodes), root, c, t, nodes);
    }

    /** The same, then rb_rotate_left(root, x_parent) */
    method FinishTurnLeft(root: int, xp: int, w: int, ghost c: Ctx, ghost t: Tree) returns (r: int)
      requires Zip(nodes, root, c, t) && c.InLeft? && c.right.Node? && c.right.right.Node? && c.id == xp && c.right.id == w
      modifies this`nodes
      ensures Zip(nodes, r, c.up, FinishLeft(c, t, c.right))
      ensures SameNodes(old(nodes), c, t, nodes, c.up, FinishLeft(c, t, c.right))
    {
      ghost var p := Node(false, t, c.id, Paint(c.right, c.red, IsRed(c.right.left), false));
      ZipUp(nodes, root, c, t);
      FinishPaintLeft(root, xp, w, c, t);
      r := RotateLeftAt(root, xp, c.up, p);
      FinishSameLeft(old(nodes), nodes, c, t);
    }

    // ---------- rb_delete_fixup, hole on the right ----------

    /** w->color = 0; x_parent->color = 1; rb_rotate_right(root, x_parent) */
    method RedSiblingTurnRight(root: int, xp: int, w: int, ghost c: Ctx, ghost t: Tree) returns (r: int)
      requires Zip(nodes, root, c, t) && c.InRight? && c.left.Node? && c.id == xp && c.left.id == w
      modifies this`nodes
      ensures Zip(nodes, r, RedSiblingRight(c), t) && SameNodes(old(nodes), c, t, nodes, RedSiblingRight(c), t)
    {
      ghost var g := Grow(c, t);
      ghost var p := Paint(g, true, false, IsRed(t));
      ZipUp(nodes, root, c, t);
      PaintReady(nodes, root, c.up, g);
      SetRed(w, false);
      SetRed(xp, true);
      PaintZip(old(nodes), root, c.up, g, nodes, true, false, IsRed(t));
      PaintFacts(g, true, false, IsRed(t));
      r := RotateRightAt(root, xp, c.up, p);
      ghost var u := RotR(p);
      RotRInorder(p);
      RotRIds(p);
      Resubtree(old(nodes), nodes, c.up, g, u);
      ZipRight(nodes, r, c.up, u);
      ZipRight(nodes, r, InRight(c.up, u.red, u.left, u.id), u.right);
      UpSame(old(nodes), c, t);
      UpSame(nodes, RedSiblingRight(c), t);
      UpSame(nodes, RedSiblingRight(c).up, u.right);
    }

    /** w->color = 1; x = x_parent */
    method SiblingRedRight(root: int, w: int, ghost c: Ctx, ghost t: Tree)
      requires Zip(nodes, root, c, t) && c.InRight? && c.left.Node? && c.left.id == w
      modifies this`nodes
      ensures Zip(nodes, root, c.up, Grow(PaintSibling(c), t))
      ensures SameNodes(old(nodes), c, t, nodes, c.up, Grow(PaintSibling(c), t))
    {
      ghost var g := Grow(c, t);
      ZipUp(nodes, root, c, t);
      PaintReady(nodes, root, c.up, g);
      SetRed(w, true);
      PaintZip(old(nodes), root, c.up, g, nodes, c.red, true, IsRed(t));
      PaintFacts(g, c.red, true, IsRed(t));
      assert Paint(g, c.red, true, IsRed(t)) == Grow(PaintSibling(c), t);
      UpSame(old(nodes), c, t);
      Resubtree(old(nodes), nodes, c.up, g, Grow(PaintSibling(c), t));
    }

    /** w->right->color = 0; w->color = 1; rb_rotate_left(root, w) */
    method StraightenRight(root: int, w: int, ghost c: Ctx, ghost t: Tree) returns (r: int)
      requires Zip(nodes, root, c, t) && c.InRight? && c.left.Node? && c.left.id == w
      requires IsRed(c.left.right) && !IsRed(c.left.left)
      modifies this`nodes
      ensures Zip(nodes, r, c.(left := Outer(c)), t) && SameNodes(old(nodes), c, t, nodes, c.(left := Outer(c)), t)
    {
      ghost var d := InLeft(c.up, c.red, c.id, t);
      ghost var s := c.left;
      ZipUp(nodes, root, c, t);
      ZipLeft(nodes, root, c.up, Grow(c, t));
      FocusFacts(nodes, root, d, s);
      r := PaintTurnLeft(root, nodes[w].right, w, d, s);
      SameTurnLeft(old(nodes), nodes, d, s);
      ZipUp(nodes, r, d, Outer(c));
      ZipRight(nodes, r, c.up, Grow(d, Outer(c)));
      SameAcrossRight(old(nodes), nodes, c, t, Outer(c));
    }

    /** w->color = x_parent->color; x_parent->color = 0; w->left->color = 0 */
    method FinishPaintRight(root: int, xp: int, w: int, ghost c: Ctx, ghost t: Tree)
      requires Zip(nodes, root, c, t) && c.InRight? && c.left.Node? && c.left.left.Node? && c.id == xp && c.left.id == w
      modifies this`nodes
      ensures var v := Paint(c.left, c.red, false, IsRed(c.left.right));
              Zip(nodes, root, c.up, Node(false, v, c.id, t)) && Outside(old(nodes), nodes, CtxIds(c) + Ids(t))
    {
      FinishReadyRight(nodes, root, c, t);
      SetRed(w, nodes[xp].red);
      SetRed(xp, false);
      SetRed(nodes[w].left, false);
      FinishPaintedRight(old(nodes), root, c, t, nodes);
    }

    /** The same, then rb_rotate_right(root, x_parent) */
    method FinishTurnRight(root: int, xp: int, w: int, ghost c: Ctx, ghost t: Tree) returns (r: int)
      requires Zip(nodes, root, c, t) && c.InRight? && c.left.Node? && c.left.left.Node? && c.id == xp && c.left.id == w
      modifies this`nodes
      ensures Zip(nodes, r, c.up, FinishRight(c, t, c.left))
      ensures SameNodes(old(nodes), c, t, nodes, c.up, FinishRight(c, t, c.left))
    {
      ghost var p := Node(false, Paint(c.left, c.red, false, IsRed(c.left.right)), c.id, t);
      ZipUp(nodes, root, c, t);
      FinishPaintRight(root, xp, w, c, t);
      r := RotateRightAt(root, xp, c.up, p);
      FinishSameRight(old(nodes), nodes, c, t);
    }
  
    /** The rest of a turn of the loop, the sibling being black. */
    method DeleteBlackLeft(root: int, xp: int, ghost c: Ctx, ghost t: Tree, ghost n: nat)
      returns (r: int, x2: int, xp2: int, ghost d: Ctx, ghost u: Tree, ghost m: nat)
      requires Deleting(nodes, root, Root(t), xp, c, t, n) && c.InLeft? && !IsRed(t) && c.right.Node? && !c.right.red
      modifies this`nodes
      ensures Deleting(nodes, r, x2, xp2, d, u, m) && SameNodes(old(nodes), c, t, nodes, d, u)
      ensures c.red ==> Measure(d, u) == 0
      ensures Measure(d, u) < Measure(c, t)
    {
      NephewsLeft(nodes, root, c, t);
      var w := nodes[xp].right;
      var wl, wr := nodes[w].left, nodes[w].right;
      r := root;
      if (wl == NULL || !nodes[wl].red) && (wr == NULL || !nodes[wr].red) {
        MoveUpOk(c, t, n);
        SiblingRedLeft(root, w, c, t);
        x2 := xp;
        FocusFacts(nodes, root, c.up, Grow(PaintSibling(c), t));
        xp2 := nodes[x2].parent;
        d, u, m := c.up, Grow(PaintSibling(c), t), if c.red then n else n + 1;
      } else {
        OuterOk(c, t, n);
        FinishOk(c, t, n, Outer(c));
        ghost var e := c.(right := Outer(c));
        if wr == NULL || !nodes[wr].red {
          r := StraightenLeft(root, w, c, t);
          NephewsLeft(nodes, r, e, t);
          w := nodes[xp].right;
        }
        ghost var h := nodes;
        r := FinishTurnLeft(r, xp, w, e, t);
        SameTrans(old(nodes), c, t, h, e, t, nodes, c.up, FinishLeft(e, t, e.right));
        d, u := Top, Plug(c.up, FinishLeft(e, t, e.right));
        m := WholeSame(nodes, r, c.up, FinishLeft(e, t, e.right), if c.red then n + 1 else n + 2);
        x2, xp2 := r, NULL;
      }
    }

    method DeleteStepLeft(root: int, xp: int, ghost c: Ctx, ghost t: Tree, ghost n: nat)
      returns (r: int, x2: int, xp2: int, ghost d: Ctx, ghost u: Tree, ghost m: nat)
      requires Deleting(nodes, root, Root(t), xp, c, t, n) && c.InLeft? && !IsRed(t)
      modifies this`nodes
      ensures Deleting(nodes, r, x2, xp2, d, u, m) && SameNodes(old(nodes), c, t, nodes, d, u)
      ensures Measure(d, u) < Measure(c, t)
    {
      SiblingExists(c, t, n);
      NephewsLeft(nodes, root, c, t);
      var w := nodes[xp].right;
      r := root;
      ghost var e, h := c, nodes;
      if nodes[w].red {
        RedSiblingOk(c, t, n);
        r := RedSiblingTurnLeft(root, xp, w, c, t);
        e, h := RedSiblingLeft(c), nodes;
      }
      r, x2, xp2, d, u, m := DeleteBlackLeft(r, xp, e, t, n);
      SameTrans(old(nodes), c, t, h, e, t, nodes, d, u);
    }

    /** The rest of a turn of the loop, the sibling being black. */
    method DeleteBlackRight(root: int, xp: int, ghost c: Ctx, ghost t: Tree, ghost n: nat)
      returns (r: int, x2: int, xp2: int, ghost d: Ctx, ghost u: Tree, ghost m: nat)
      requires Deleting(nodes, root, Root(t), xp, c, t, n) && c.InRight? && !IsRed(t) && c.left.Node? && !c.left.red
      modifies this`nodes
      ensures Deleting(nodes, r, x2, xp2, d, u, m) && SameNodes(old(nodes), c, t, nodes, d, u)
      ensures c.red ==> Measure(d, u) == 0
      ensures Measure(d, u) < Measure(c, t)
    {
      NephewsRight(nodes, root, c, t);
      var w := nodes[xp].left;
      var wl, wr := nodes[w].right, nodes[w].left;
      r := root;
      if (wl == NULL || !nodes[wl].red) && (wr == NULL || !nodes[wr].red) {
        MoveUpOk(c, t, n);
        SiblingRedRight(root, w, c, t);
        x2 := xp;
        FocusFacts(nodes, root, c.up, Grow(PaintSibling(c), t));
        xp2 := nodes[x2].parent;
        d, u, m := c.up, Grow(PaintSibling(c), t), if c.red then n else n + 1;
      } else {
        OuterOk(c, t, n);
        FinishOk(c, t, n, Outer(c));
        ghost var e := c.(left := Outer(c));
        if wr == NULL || !nodes[wr].red {
          r := StraightenRight(root, w, c, t);
          NephewsRight(nodes, r, e, t);
          w := nodes[xp].left;
        }
        ghost var h := nodes;
        r := FinishTurnRight(r, xp, w, e, t);
        SameTrans(old(nodes), c, t, h, e, t, nodes, c.up, FinishRight(e, t, e.left));
        d, u := Top, Plug(c.up, FinishRight(e, t, e.left));
        m := WholeSame(nodes, r, c.up, FinishRight(e, t, e.left), if c.red then n + 1 else n + 2);
        x2, xp2 := r, NULL;
      }
    }

    method DeleteStepRight(root: int, xp: int, ghost c: Ctx, ghost t: Tree, ghost n: nat)
      returns (r: int, x2: int, xp2: int, ghost d: Ctx, ghost u: Tree, ghost m: nat)
      requires Deleting(nodes, root, Root(t), xp, c, t, n) && c.InRight? && !IsRed(t)
      modifies this`nodes
      ensures Deleting(nodes, r, x2, xp2, d, u, m) && SameNodes(old(nodes), c, t, nodes, d, u)
      ensures Measure(d, u) < Measure(c, t)
    {
      SiblingExists(c, t, n);
      NephewsRight(nodes, root, c, t);
      var w := nodes[xp].left;
      r := root;
      ghost var e, h := c, nodes;
      if nodes[w].red {
        RedSiblingOk(c, t, n);
        r := RedSiblingTurnRight(root, xp, w, c, t);
        e, h := RedSiblingRight(c), nodes;
      }
      r, x2, xp2, d, u, m := DeleteBlackRight(r, xp, e, t, n);
      SameTrans(old(nodes), c, t, h, e, t, nodes, d, u);
    }
  
    /** rb_delete_fixup */
    method DeleteFixup(root: int, x0: int, xp0: int, ghost c0: Ctx, ghost t0: Tree, ghost n0: nat) returns (r: int, ghost w: Tree)
      requires Deleting(nodes, root, x0, xp0, c0, t0, n0)
      modifies this`nodes
      ensures Zip(nodes, r, Top, w) && Valid(Blacken(w)) && SameNodes(old(nodes), c0, t0, nodes, Top, w)
    {
      var x, xp := x0, xp0;
      ghost var c, t, n := c0, t0, n0;
      r := root;
      DeleteGuard(nodes, r, x, xp, c, t, n);
      while x != r && (x == NULL || !nodes[x].red)
        invariant Deleting(nodes, r, x, xp, c, t, n) && DeleteTests(nodes, r, x, xp, c, t)
        invariant SameNodes(old(nodes), c0, t0, nodes, c, t)
        decreases Measure(c, t)
      {
        ghost var h, d, u := nodes, c, t;
        if x == (if xp != NULL then nodes[xp].left else NULL) {
          r, x, xp, c, t, n := DeleteStepLeft(r, xp, c, t, n);
        } else {
          r, x, xp, c, t, n := DeleteStepRight(r, xp, c, t, n);
        }
        SameTrans(old(nodes), c0, t0, h, d, u, nodes, c, t);
        DeleteGuard(nodes, r, x, xp, c, t, n);
      }
      ghost var h := nodes;
      if x != NULL {
        SetRed(x, false);
        BlackenFocus(h, nodes, r, c, t);
      }
      DeleteEnd(c, t, n);
      ZipWhole(nodes, r, c, Blacken(t));
      PlugIds(c, Blacken(t));
      w := Plug(c, Blacken(t));
      SameTrans(old(nodes), c0, t0, h, c, t, nodes, Top, w);
    }
  
    // ---------- rb_remove_node ----------

    /** rb_transplant */
    method Transplant(root: int, u: int, v: int) returns (r: int)
      requires 0 <= u < |nodes| && Link(nodes, nodes[u].parent, {u, v}) && Link(nodes, v, {})
      modifies this`nodes
      ensures Transplanted(old(nodes), root, u, v, nodes, r)
    {
      r := root;
      if nodes[u].parent == NULL { r := v; }
      else if u == nodes[nodes[u].parent].left { SetLeft(nodes[u].parent, v); }
      else { SetRight(nodes[u].parent, v); }
      if v != NULL { SetParent(v, nodes[u].parent); }
    }

    /** y = z->right; while (y->left) y = y->left */
    method Successor(root: int, z: int, ghost c: Ctx, ghost t: Tree, ghost n: nat)
      returns (y: int, ghost d: Ctx, ghost s: Tree, ghost m: nat)
      requires Zip(nodes, root, c, t) && t.Node? && t.id == z && t.right.Node?
      requires CtxOk(c, n) && RB(t, n) && !(IsRed(t) && CtxRed(c))
      ensures Zip(nodes, root, d, s) && s.Node? && s.left.Leaf? && s.id == y && Plug(d, s) == Plug(c, t)
      ensures Spine(d, c, t.red, t.left, z) && CtxOk(d, m) && RB(s, m) && !(IsRed(s) && CtxRed(d))
    {
      ZipRight(nodes, root, c, t);
      FocusFacts(nodes, root, c, t);
      y := nodes[z].right;
      d, s, m := InRight(c, t.red, t.left, t.id), t.right, if t.red then n else n - 1;
      FocusFacts(nodes, root, d, s);
      while nodes[y].left != NULL
        invariant Zip(nodes, root, d, s) && s.Node? && s.id == y && Plug(d, s) == Plug(c, t)
        invariant 0 <= y < |nodes| && (nodes[y].left == NULL <==> s.left.Leaf?)
        invariant Spine(d, c, t.red, t.left, z) && CtxOk(d, m) && RB(s, m) && !(IsRed(s) && CtxRed(d))
        decreases s
      {
        ZipLeft(nodes, root, d, s);
        FocusFacts(nodes, root, d, s);
        y := nodes[y].left;
        d, s, m := InLeft(d, s.red, s.id, s.right), s.left, if s.red then m else m - 1;
        FocusFacts(nodes, root, d, s);
      }
    }
  
    /** rb_transplant(root, z, y); y->left = z->left; y->left->parent = y; y->color = z->color */
    method Substitute(root: int, z: int, y: int, ghost c: Ctx, ghost l: Tree, ghost s: Tree) returns (r: int)
      requires Apart(c, z, l, y, s) && l.Node? && CtxShape(nodes, root, c, z) && Shape(nodes, l, z) && Shape(nodes, s, y)
      requires 0 <= z < |nodes| && nodes[z].parent == CtxId(c) && nodes[z].left == Root(l)
      requires 0 <= y < |nodes| && nodes[y].right == Root(s)
      modifies this`nodes
      ensures Zip(nodes, r, c, Node(old(nodes)[z].red, l, y, s)) && Outside(old(nodes), nodes, CtxIds(c) + Ids(l) + {y})
    {
      ghost var h := nodes;
      SubstituteReady(h, root, c, z, l, y, s);
      r := Transplant(root, z, y);
      SetLeft(y, nodes[z].left);
      SetParent(nodes[y].left, y);
      SetRed(y, nodes[z].red);
      Substituted(h, root, c, z, nodes, r, l, y, s);
    }
  
    /** rb_transplant(root, z, v) where v is z's only child, or NULL. */
    method SpliceChild(root: int, z: int, v: int, ghost c: Ctx, ghost t: Tree, ghost s: Tree) returns (r: int)
      requires Zip(nodes, root, c, t) && t.Node? && t.id == z && v == Root(s)
      requires (t.left.Leaf? && s == t.right) || (t.right.Leaf? && s == t.left)
      modifies this`nodes
      ensures Spliced(old(nodes), c, t, nodes, r, c, s)
    {
      FocusFacts(nodes, root, c, t);
      ChildLink(nodes, c, t, s);
      r := Transplant(root, z, v);
      TransplantChild(old(nodes), root, c, t, s, nodes, r);
      SplicedChildOrder(c, t, s);
    }

    /** The successor y is the right child of z. */
    method SpliceNear(root: int, z: int, y: int, ghost c: Ctx, ghost t: Tree) returns (r: int)
      requires Zip(nodes, root, c, t) && t.Node? && t.id == z && t.left.Node? && t.right.Node? && t.right.id == y && t.right.left.Leaf?
      modifies this`nodes
      ensures Spliced(old(nodes), c, t, nodes, r, InRight(c, t.red, t.left, y), t.right.right)
    {
      NearReady(nodes, root, c, t);
      r := Substitute(root, z, y, c, t.left, t.right.right);
      ghost var u := Node(t.red, t.left, y, t.right.right);
      ZipRight(nodes, r, c, u);
      SplicedOrder(InRight(c, t.red, t.left, z), c, t, t.right);
      SplicedIds(InRight(c, t.red, t.left, z), c, t, t.right);
      OutsideWider(old(nodes), nodes, CtxIds(c) + Ids(t.left) + {y}, CtxIds(c) + Ids(t));
    }
  
    /** rb_transplant(root, y, y->right) at the leftmost node y. */
    method TransplantLeftmost(root: int, y: int, ghost d: Ctx, ghost s: Tree) returns (r: int)
      requires Zip(nodes, root, d, s) && s.Node? && s.left.Leaf? && s.id == y
      modifies this`nodes
      ensures Zip(nodes, r, d, s.right) && Outside(old(nodes), nodes, CtxIds(d) + Ids(s.right))
      ensures 0 <= y < |nodes| && y !in CtxIds(d) && y !in Ids(s.right)
    {
      FocusFacts(nodes, root, d, s);
      ChildLink(nodes, d, s, s.right);
      r := Transplant(root, y, nodes[y].right);
      TransplantChild(old(nodes), root, d, s, s.right, nodes, r);
    }

    /** The same, then y->right = z->right; y->right->parent = y */
    method DetachSuccessor(root: int, z: int, y: int, ghost d: Ctx, ghost c: Ctx, ghost t: Tree, ghost s: Tree) returns (r: int)
      requires Zip(nodes, root, d, s) && s.Node? && s.left.Leaf? && s.id == y
      requires t.Node? && t.id == z && d.InLeft? && Spine(d, c, t.red, t.left, z)
      modifies this`nodes
      ensures var v := SpinePlug(d, s.right);
              && Apart(c, z, t.left, y, v) && CtxShape(nodes, r, c, z) && Shape(nodes, t.left, z) && Shape(nodes, v, y)
              && 0 <= z < |nodes| && nodes[z] == RbNode(CtxId(c), Root(t.left), nodes[z].right, t.red)
              && 0 <= y < |nodes| && nodes[y].right == Root(v)
      ensures Outside(old(nodes), nodes, CtxIds(d) + Ids(s))
    {
      r := TransplantLeftmost(root, y, d, s);
      ghost var h := nodes;
      AfterDetach(h, r, d, c, t, s);
      SetRight(y, nodes[z].right);
      SetParent(nodes[y].right, y);
      Rehung(h, r, c, t, y, SpinePlug(d, s.right), nodes);
    }

    /** The successor y is deeper in the right subtree of z. */
    method SpliceFar(root: int, z: int, y: int, ghost d: Ctx, ghost c: Ctx, ghost t: Tree, ghost s: Tree) returns (r: int)
      requires Zip(nodes, root, c, t) && Zip(nodes, root, d, s) && s.Node? && s.left.Leaf? && s.id == y && Plug(d, s) == Plug(c, t)
      requires t.Node? && t.id == z && t.left.Node? && d.InLeft? && Spine(d, c, t.red, t.left, z)
      modifies this`nodes
      ensures Spliced(old(nodes), c, t, nodes, r, Rebase(d, y), s.right)
    {
      ghost var v := SpinePlug(d, s.right);
      r := DetachSuccessor(root, z, y, d, c, t, s);
      ghost var h := nodes;
      r := Substitute(r, z, y, c, t.left, v);
      FarDone(old(nodes), h, nodes, r, d, c, t, s);
    }
  
    /** rb_remove_node up to the point where z is unlinked: x took its place, or the place of its successor. */
    method Unlink(root: int, z: int, ghost c: Ctx, ghost t: Tree, ghost n: nat)
      returns (r: int, x: int, xp: int, red: bool, ghost e: Ctx, ghost s: Tree, ghost m: nat)
      requires Zip(nodes, root, c, t) && t.Node? && t.id == z && CtxOk(c, n) && RB(t, n) && !(IsRed(t) && CtxRed(c))
      modifies this`nodes
      ensures Spliced(old(nodes), c, t, nodes, r, e, s) && x == Root(s) && xp == CtxId(e)
      ensures if red then CtxOk(e, m) && RB(s, m) && !IsRed(s) else Short(e, s, m)
    {
      FocusFacts(nodes, root, c, t);
      red := nodes[z].red;
      if nodes[z].left == NULL {
        x, xp := nodes[z].right, nodes[z].parent;
        e, s, m := c, t.right, if t.red then n else n - 1;
        r := SpliceChild(root, z, nodes[z].right, c, t, s);
      } else if nodes[z].right == NULL {
        x, xp := nodes[z].left, nodes[z].parent;
        e, s, m := c, t.left, n - 1;
        r := SpliceChild(root, z, nodes[z].left, c, t, s);
      } else {
        r, x, xp, red, e, s, m := UnlinkInner(root, z, c, t, n);
      }
    }

    /** The case of two children. */
    method UnlinkInner(root: int, z: int, ghost c: Ctx, ghost t: Tree, ghost n: nat)
      returns (r: int, x: int, xp: int, red: bool, ghost e: Ctx, ghost s: Tree, ghost m: nat)
      requires Zip(nodes, root, c, t) && t.Node? && t.id == z && CtxOk(c, n) && RB(t, n) && !(IsRed(t) && CtxRed(c))
      requires t.left.Node? && t.right.Node?
      modifies this`nodes
      ensures Spliced(old(nodes), c, t, nodes, r, e, s) && x == Root(s) && xp == CtxId(e)
      ensures if red then CtxOk(e, m) && RB(s, m) && !IsRed(s) else Short(e, s, m)
    {
      var y;
      ghost var d, u;
      y, d, u, m := Successor(root, z, c, t, n);
      FocusFacts(nodes, root, d, u);
      SpineOk(d, c, t.red, t.left, z, y, m);
      SpineBase(d, c, t.red, t.left, z);
      red := nodes[y].red;
      x := nodes[y].right;
      e, s := Rebase(d, y), u.right;
      if nodes[y].parent == z {
        xp := y;
        PlugInjective(c, Node(t.red, t.left, z, u), t);
        r := SpliceNear(root, z, y, c, t);
      } else {
        xp := nodes[y].parent;
        r := SpliceFar(root, z, y, d, c, t, u);
      }
      m := if u.red then m else m - 1;
    }
  
    /** if (root->root) root->root->color = 0 */
    method BlackTop(root: int, ghost t: Tree) returns (ghost w: Tree)
      requires Zip(nodes, root, Top, t)
      modifies this`nodes
      ensures w == Blacken(t) && Zip(nodes, root, Top, w) && Ids(w) == Ids(t) && Inorder(w) == Inorder(t)
      ensures Outside(old(nodes), nodes, Ids(t))
    {
      w := t;
      FocusRoot(nodes, root, Top, t);
      if root != NULL { w := BlackRoot(root, t); }
    }

    /** rb_remove_node: exactly z leaves, and the tree stays red-black. */
    method RemoveNode(root: int, z: int, ghost t: Tree) returns (r: int, ghost w: Tree)
      requires Zip(nodes, root, Top, t) && Valid(t) && z in Ids(t)
      modifies this`nodes
      ensures Zip(nodes, r, Top, w) && Valid(w) && Inorder(w) == Without(Inorder(t), z) && Ids(w) == Ids(t) - {z}
      ensures Outside(old(nodes), nodes, Ids(t))
      ensures 0 <= z < |nodes| && nodes[z].parent == nodes[z].left == nodes[z].right == NULL
    {
      ghost var c, u, n := Locate(nodes, root, t, z);
      ghost var e, s, m;
      var x, xp, red;
      r, x, xp, red, e, s, m := Unlink(root, z, c, u, n);
      ghost var k := nodes;
      UnlinkedRange(old(nodes), root, c, u);
      nodes := nodes[z := nodes[z].(left := NULL, right := NULL, parent := NULL)];
      ZipFrame(k, nodes, r, e, s);
      ghost var g := nodes;
      if !red {
        r, w := DeleteFixup(r, x, xp, e, s, m);
      } else {
        PlugValid(e, s, m);
        ZipWhole(nodes, r, e, s);
        PlugIds(e, s);
        w := Plug(e, s);
      }
      w := BlackTop(r, w);
      PlugIds(c, u);
    }
  
    /** rb_leftmost: the first node in order. */
    method Leftmost(root: int, ghost t: Tree) returns (n: int)
      requires Zip(nodes, root, Top, t)
      ensures n == if t.Leaf? then NULL else Inorder(t)[0]
      ensures t.Node? ==> |Inorder(t)| > 0 && n in Ids(t) && n != NULL
    {
      n := root;
      FocusRoot(nodes, root, Top, t);
      if n == NULL { return; }
      ghost var c: Ctx, s := Top, t;
      FocusFacts(nodes, root, c, s);
      while nodes[n].left != NULL
        invariant Zip(nodes, root, c, s) && s.Node? && n == s.id && Plug(c, s) == t && Pre(c) == []
        invariant 0 <= n < |nodes| && nodes[n].left == Root(s.left)
        decreases s
      {
        FocusFacts(nodes, root, c, s);
        ZipLeft(nodes, root, c, s);
        n := nodes[n].left;
        c, s := InLeft(c, s.red, s.id, s.right), s.left;
        FocusFacts(nodes, root, c, s);
      }
      FocusFacts(nodes, root, c, s);
      FirstInOrder(c, s);
    }
  }
}
