/** Red-black trees as values, with the zipper that the pointer code of kernel/sched/sched.c walks. */
module RbTree {
  import opened Bits

  datatype Tree = Leaf | Node(red: bool, left: Tree, id: int, right: Tree)

  /** A tree with one subtree missing. */
  datatype Ctx =
    | Top
    | InLeft(up: Ctx, red: bool, id: int, right: Tree)
    | InRight(up: Ctx, red: bool, left: Tree, id: int)

  ghost function Plug(c: Ctx, t: Tree): Tree
  {
    match c
    case Top => t
    case InLeft(up, red, n, r) => Plug(up, Node(red, t, n, r))
    case InRight(up, red, l, n) => Plug(up, Node(red, l, n, t))
  }

  // ---------- contents ----------

  ghost function Inorder(t: Tree): seq<int>
  {
    if t.Leaf? then [] else Inorder(t.left) + [t.id] + Inorder(t.right)
  }

  /** What comes before and after the hole. */
  ghost function Pre(c: Ctx): seq<int>
  {
    match c
    case Top => []
    case InLeft(up, _, _, _) => Pre(up)
    case InRight(up, _, l, n) => Pre(up) + Inorder(l) + [n]
  }

  ghost function Post(c: Ctx): seq<int>
  {
    match c
    case Top => []
    case InLeft(up, _, n, r) => [n] + Inorder(r) + Post(up)
    case InRight(up, _, _, _) => Post(up)
  }

  lemma Regroup(a: seq<int>, b: seq<int>, c: seq<int>, d: seq<int>, e: seq<int>)
    ensures a + (b + c + d) + e == a + b + (c + d + e)
    ensures a + (b + c + d) + e == (a + b + c) + d + e
  {}

  lemma {:induction false} PlugInorder(c: Ctx, t: Tree)
    ensures Inorder(Plug(c, t)) == Pre(c) + Inorder(t) + Post(c)
  {
    match c
    case Top =>
    case InLeft(up, red, n, r) =>
      PlugInorder(up, Node(red, t, n, r));
      Regroup(Pre(up), Inorder(t), [n], Inorder(r), Post(up));
    case InRight(up, red, l, n) =>
      PlugInorder(up, Node(red, l, n, t));
      Regroup(Pre(up), Inorder(l), [n], Inorder(t), Post(up));
  }

  // ---------- distinct nodes ----------

  ghost function Ids(t: Tree): set<int>
  {
    if t.Leaf? then {} else Ids(t.left) + {t.id} + Ids(t.right)
  }

  ghost predicate Sep(t: Tree)
  {
    t.Leaf? || (t.id !in Ids(t.left) && t.id !in Ids(t.right) && Ids(t.left) !! Ids(t.right) && Sep(t.left) && Sep(t.right))
  }

  ghost function CtxIds(c: Ctx): set<int>
  {
    match c
    case Top => {}
    case InLeft(up, _, n, r) => CtxIds(up) + {n} + Ids(r)
    case InRight(up, _, l, n) => CtxIds(up) + {n} + Ids(l)
  }

  ghost predicate CtxSep(c: Ctx)
  {
    match c
    case Top => true
    case InLeft(up, _, n, r) => n !in Ids(r) && n !in CtxIds(up) && Ids(r) !! CtxIds(up) && Sep(r) && CtxSep(up)
    case InRight(up, _, l, n) => n !in Ids(l) && n !in CtxIds(up) && Ids(l) !! CtxIds(up) && Sep(l) && CtxSep(up)
  }

  lemma {:induction false} PlugIds(c: Ctx, t: Tree)
    ensures Ids(Plug(c, t)) == CtxIds(c) + Ids(t)
  {
    match c
    case Top =>
    case InLeft(up, red, n, r) => PlugIds(up, Node(red, t, n, r));
    case InRight(up, red, l, n) => PlugIds(up, Node(red, l, n, t));
  }

  lemma {:induction false} PlugSep(c: Ctx, t: Tree)
    requires CtxSep(c) && Sep(t) && CtxIds(c) !! Ids(t)
    ensures Sep(Plug(c, t))
  {
    match c
    case Top =>
    case InLeft(up, red, n, r) => PlugSep(up, Node(red, t, n, r));
    case InRight(up, red, l, n) => PlugSep(up, Node(red, l, n, t));
  }

  lemma {:induction false} InorderIds(t: Tree)
    ensures forall i :: i in Inorder(t) <==> i in Ids(t)
  {
    if t.Node? {
      InorderIds(t.left);
      InorderIds(t.right);
    }
  }

  ghost predicate NoDup(s: seq<int>)
  {
    forall i, j | 0 <= i < j < |s| :: s[i] != s[j]
  }

  lemma NoDupJoin(a: seq<int>, x: int, b: seq<int>)
    requires NoDup(a) && NoDup(b) && x !in a && x !in b && forall i | i in a :: i !in b
    ensures NoDup(a + [x] + b)
  {
    var s := a + [x] + b;
    forall i, j | 0 <= i < j < |s|
      ensures s[i] != s[j]
    {
      if i < |a| < j {
        assert s[i] in a && s[j] in b;
      }
    }
  }

  lemma {:induction false} SepNoDup(t: Tree)
    requires Sep(t)
    ensures NoDup(Inorder(t))
  {
    if t.Node? {
      SepNoDup(t.left);
      SepNoDup(t.right);
      InorderIds(t.left);
      InorderIds(t.right);
      NoDupJoin(Inorder(t.left), t.id, Inorder(t.right));
    }
  }

  // ---------- the red-black invariant ----------

  ghost predicate IsRed(t: Tree) { t.Node? && t.red }

  /** Black height n, and no red node has a red child. */
  ghost predicate RB(t: Tree, n: nat)
  {
    match t
    case Leaf => n == 0
    case Node(true, l, _, r) => !IsRed(l) && !IsRed(r) && RB(l, n) && RB(r, n)
    case Node(false, l, _, r) => n > 0 && RB(l, n - 1) && RB(r, n - 1)
  }

  ghost predicate CtxRed(c: Ctx) { !c.Top? && c.red }

  /** Filled with a tree of black height n, this is a red-black tree, except that the hole's parent and what fills the
      hole may both be red. */
  ghost predicate CtxOk(c: Ctx, n: nat)
  {
    match c
    case Top => true
    case InLeft(up, true, _, r) => RB(r, n) && !IsRed(r) && !CtxRed(up) && CtxOk(up, n)
    case InLeft(up, false, _, r) => RB(r, n) && CtxOk(up, n + 1)
    case InRight(up, true, l, _) => RB(l, n) && !IsRed(l) && !CtxRed(up) && CtxOk(up, n)
    case InRight(up, false, l, _) => RB(l, n) && CtxOk(up, n + 1)
  }

  ghost function Blacken(t: Tree): Tree
  {
    if t.Leaf? then t else t.(red := false)
  }

  /** A red-black tree with a black root. */
  ghost predicate Valid(t: Tree)
  {
    !IsRed(t) && exists n: nat :: RB(t, n)
  }

  lemma {:induction false} PlugValid(c: Ctx, t: Tree, n: nat)
    requires CtxOk(c, n) && RB(t, n)
    requires IsRed(t) && CtxRed(c) ==> c.up.Top?
    ensures Valid(Blacken(Plug(c, t)))
  {
    match c
    case Top =>
      if IsRed(t) {
        assert RB(Blacken(t), n + 1);
      } else {
        assert RB(Blacken(t), n);
      }
    case InLeft(up, red, id, r) =>
      if IsRed(t) && red {
        assert Plug(c, t) == Node(red, t, id, r);
        assert RB(Blacken(Plug(c, t)), n + 1);
      } else {
        PlugValid(up, Node(red, t, id, r), if red then n else n + 1);
      }
    case InRight(up, red, l, id) =>
      if IsRed(t) && red {
        assert Plug(c, t) == Node(red, l, id, t);
        assert RB(Blacken(Plug(c, t)), n + 1);
      } else {
        PlugValid(up, Node(red, l, id, t), if red then n else n + 1);
      }
  }

  // ---------- height ----------

  ghost function Height(t: Tree): nat
  {
    if t.Leaf? then 0 else 1 + if Height(t.left) > Height(t.right) then Height(t.left) else Height(t.right)
  }

  lemma {:induction false} RBSize(t: Tree, n: nat)
    requires RB(t, n)
    ensures |Inorder(t)| + 1 >= Pow2(n)
    ensures Height(t) <= if IsRed(t) then 2 * n + 1 else 2 * n
  {
    if t.Node? {
      RBSize(t.left, if t.red then n else n - 1);
      RBSize(t.right, if t.red then n else n - 1);
    }
  }

  /** height <= 2 * log2(n + 1) */
  lemma HeightBound(t: Tree)
    requires Valid(t)
    ensures Pow2((Height(t) + 1) / 2) <= |Inorder(t)| + 1
  {
    var n: nat :| RB(t, n);
    RBSize(t, n);
    Pow2Monotone((Height(t) + 1) / 2, n);
  }
}
