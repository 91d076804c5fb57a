/** The per-CPU run queues of kernel/sched/sched.c: three red-black trees each, as stable priority queues. */
module RunQueue {
  import opened RbTree
  import opened RbHeap
  import opened RbSteps
  import opened RbSplice
  import opened RbCode

  const RT := 0
  const INTR := 1
  const BATCH := 2

  /** a runs before b: smaller priority value, or equal and queued earlier. */
  ghost predicate Ahead(a: int, b: int, pri: seq<int>, stamp: seq<nat>)
  {
    && 0 <= a < |pri| == |stamp| && 0 <= b < |pri|
    && (pri[a] < pri[b] || (pri[a] == pri[b] && stamp[a] < stamp[b]))
  }

  ghost predicate Fifo(s: seq<int>, pri: seq<int>, stamp: seq<nat>)
  {
    InTable(s, pri) && forall i, j | 0 <= i < j < |s| :: Ahead(s[i], s[j], pri, stamp)
  }

  lemma FifoSorted(s: seq<int>, pri: seq<int>, stamp: seq<nat>)
    requires Fifo(s, pri, stamp)
    ensures Sorted(s, pri)
  {
    forall i, j | 0 <= i < j < |s| ensures pri[s[i]] <= pri[s[j]] { assert Ahead(s[i], s[j], pri, stamp); }
  }

  lemma FifoCons(x: int, s: seq<int>, pri: seq<int>, stamp: seq<nat>)
    requires Fifo(s, pri, stamp) && 0 <= x < |pri| && forall i | i in s :: Ahead(x, i, pri, stamp)
    ensures Fifo([x] + s, pri, stamp)
  {
    var r := [x] + s;
    forall i, j | 0 <= i < j < |r|
      ensures Ahead(r[i], r[j], pri, stamp)
    {
      assert r[j] == s[j - 1] && r[j] in s;
      if i > 0 { assert r[i] == s[i - 1]; }
    }
  }

  lemma FifoTail(s: seq<int>, pri: seq<int>, stamp: seq<nat>)
    requires Fifo(s, pri, stamp) && s != []
    ensures Fifo(s[1..], pri, stamp) && 0 <= s[0] < |pri| && forall i | i in s[1..] :: Ahead(s[0], i, pri, stamp)
  {
    assert forall j | 0 <= j < |s| - 1 :: s[1..][j] == s[j + 1];
  }

  lemma {:induction false} PlacedMembers(s: seq<int>, z: int, pri: seq<int>)
    requires InTable(s, pri) && 0 <= z < |pri|
    ensures forall i :: i in Placed(s, z, pri) <==> i == z || i in s
    ensures |Placed(s, z, pri)| == |s| + 1
  {
    if s != [] && pri[z] >= pri[s[0]] {
      PlacedMembers(s[1..], z, pri);
      assert s == [s[0]] + s[1..];
    }
  }

  /** A newcomer placed behind its equals keeps the order. */
  lemma {:induction false} PlacedFifo(s: seq<int>, z: int, pri: seq<int>, stamp: seq<nat>)
    requires Fifo(s, pri, stamp) && 0 <= z < |pri| == |stamp|
    requires forall i | i in s :: 0 <= i < |pri| && stamp[i] < stamp[z]
    ensures Fifo(Placed(s, z, pri), pri, stamp)
  {
    if s == [] {
      FifoCons(z, s, pri, stamp);
    } else {
      FifoTail(s, pri, stamp);
      assert s == [s[0]] + s[1..];
      assert s[0] in s;
      if pri[z] < pri[s[0]] {
        FifoCons(z, s, pri, stamp);
      } else {
        PlacedFifo(s[1..], z, pri, stamp);
        PlacedMembers(s[1..], z, pri);
        FifoCons(s[0], Placed(s[1..], z, pri), pri, stamp);
      }
    }
  }

  lemma {:induction false} WithoutFifo(s: seq<int>, z: int, pri: seq<int>, stamp: seq<nat>)
    requires Fifo(s, pri, stamp)
    ensures Fifo(Without(s, z), pri, stamp) && forall i | i in Without(s, z) :: i in s
    ensures z in s ==> |Without(s, z)| == |s| - 1
  {
    if s != [] {
      FifoTail(s, pri, stamp);
      assert s == [s[0]] + s[1..];
      if s[0] != z {
        WithoutFifo(s[1..], z, pri, stamp);
        FifoCons(s[0], Without(s[1..], z), pri, stamp);
      }
    }
  }

  // ---------- one tree, and the others ----------

  /** A root pointer and a counter stand for the queue Inorder(t). */
  ghost predicate TreeOk(h: Heap, pri: seq<int>, stamp: seq<nat>, root: int, count: nat, t: Tree)
  {
    Zip(h, root, Top, t) && RbTree.Valid(t) && Fifo(Inorder(t), pri, stamp) && count == |Inorder(t)|
  }

  lemma TreeFrame(h: Heap, k: Heap, pri: seq<int>, stamp: seq<nat>, now: seq<nat>, root: int, count: nat, t: Tree, s: set<int>)
    requires TreeOk(h, pri, stamp, root, count, t) && Outside(h, k, s) && s !! Ids(t)
    requires |now| == |stamp| && forall i | 0 <= i < |stamp| && i !in s :: now[i] == stamp[i]
    ensures TreeOk(k, pri, now, root, count, t)
  {
    OutsideSame(h, k, s, Ids(t));
    ZipFrame(h, k, root, Top, t);
    InorderIds(t);
    var l := Inorder(t);
    forall i, j | 0 <= i < j < |l| ensures Ahead(l[i], l[j], pri, now) { assert Ahead(l[i], l[j], pri, stamp); }
  }

  ghost predicate AllOk(h: Heap, pri: seq<int>, stamp: seq<nat>, root: seq<int>, count: seq<nat>, trees: seq<Tree>)
  {
    && |root| == |count| == |trees|
    && (forall q {:trigger TreeOk(h, pri, stamp, root[q], count[q], trees[q])} | 0 <= q < |trees| ::
          TreeOk(h, pri, stamp, root[q], count[q], trees[q]))
    && (forall q, r | 0 <= q < r < |trees| :: Ids(trees[q]) !! Ids(trees[r]))
  }

  /** Some queue holds i. */
  ghost predicate Queued(i: int, trees: seq<Tree>) { exists q | 0 <= q < |trees| :: i in Ids(trees[q]) }

  /** Replacing queue q by one whose nodes belong to no other queue. */
  lemma AllOkUpdate(h: Heap, k: Heap, pri: seq<int>, stamp: seq<nat>, now: seq<nat>, root: seq<int>, count: seq<nat>,
                    trees: seq<Tree>, q: nat, r: int, n: nat, w: Tree, s: set<int>)
    requires AllOk(h, pri, stamp, root, count, trees) && q < |trees| && TreeOk(k, pri, now, r, n, w)
    requires Outside(h, k, s) && Ids(w) <= s && forall j | 0 <= j < |trees| && j != q :: s !! Ids(trees[j])
    requires |now| == |stamp| && forall i | 0 <= i < |stamp| && i !in s :: now[i] == stamp[i]
    ensures AllOk(k, pri, now, root[q := r], count[q := n], trees[q := w])
  {
    forall j | 0 <= j < |trees| && j != q ensures TreeOk(k, pri, now, root[j], count[j], trees[j]) {
      TreeFrame(h, k, pri, stamp, now, root[j], count[j], trees[j], s);
    }
    var u := trees[q := w];
    forall i, j | 0 <= i < j < |trees| ensures Ids(u[i]) !! Ids(u[j]) {
      if i == q { assert Ids(trees[j]) !! s; }
      if j == q { assert Ids(trees[i]) !! s; }
    }
  }

  ghost function Orders(trees: seq<Tree>): seq<seq<int>>
  {
    seq(|trees|, q requires 0 <= q < |trees| => Inorder(trees[q]))
  }

  lemma InsertedOk(h: Heap, pri: seq<int>, stamp: seq<nat>, r: int, t: Tree, w: Tree, p: int, clock: nat)
    requires Zip(h, r, Top, w) && RbTree.Valid(w) && Fifo(Inorder(t), pri, stamp) && 0 <= p < |pri| == |stamp| && p !in Ids(t)
    requires Inorder(w) == Placed(Inorder(t), p, pri) && forall i | 0 <= i < |stamp| :: stamp[i] < clock
    ensures TreeOk(h, pri, stamp[p := clock], r, |Inorder(t)| + 1, w)
  {
    var l, now := Inorder(t), stamp[p := clock];
    InorderIds(t);
    forall i, j | 0 <= i < j < |l| ensures Ahead(l[i], l[j], pri, now) { assert Ahead(l[i], l[j], pri, stamp); }
    PlacedFifo(l, p, pri, now);
    PlacedMembers(l, p, pri);
  }

  lemma RemovedOk(h: Heap, pri: seq<int>, stamp: seq<nat>, r: int, t: Tree, w: Tree, p: int)
    requires Zip(h, r, Top, w) && RbTree.Valid(w) && Fifo(Inorder(t), pri, stamp) && p in Ids(t)
    requires Inorder(w) == Without(Inorder(t), p)
    ensures |Inorder(t)| > 0 && TreeOk(h, pri, stamp, r, |Inorder(t)| - 1, w)
  {
    InorderIds(t);
    WithoutFifo(Inorder(t), p, pri, stamp);
  }

  /** Only queue q changed. */
  ghost predicate Changed(a: seq<Tree>, b: seq<Tree>, q: nat)
  {
    |a| == |b| && q < |a| && forall j | 0 <= j < |a| && j != q :: b[j] == a[j]
  }

  ghost predicate Stamped(stamp: seq<nat>, clock: nat) { forall i | 0 <= i < |stamp| :: stamp[i] < clock }

  ghost predicate Classes(class_: seq<int>) { forall i | 0 <= i < |class_| :: 0 <= class_[i] < 3 }

  /** A process in no queue has no parent link. */
  ghost predicate Detached(h: Heap, trees: seq<Tree>)
  {
    forall i | 0 <= i < |h| && !Queued(i, trees) :: h[i].parent == NULL
  }

  ghost predicate AtHome(q: nat, i: int, cpu: seq<int>, class_: seq<int>)
  {
    0 <= i < |cpu| && i < |class_| && q == 3 * cpu[i] + class_[i]
  }

  /** Queued processes are in the queue of their CPU and class. */
  ghost predicate Homes(trees: seq<Tree>, cpu: seq<int>, class_: seq<int>)
  {
    forall q, i | 0 <= q < |trees| && i in Ids(trees[q]) :: AtHome(q, i, cpu, class_)
  }

  lemma DetachedUpdate(h: Heap, k: Heap, a: seq<Tree>, b: seq<Tree>, q: nat)
    requires Detached(h, a) && Changed(a, b, q) && Outside(h, k, Ids(a[q]) + Ids(b[q]))
    requires forall i | i in Ids(a[q]) && i !in Ids(b[q]) && 0 <= i < |k| :: k[i].parent == NULL
    ensures Detached(k, b)
  {
    forall i | Queued(i, a) && i !in Ids(a[q])
      ensures Queued(i, b)
    {
      var j :| 0 <= j < |a| && i in Ids(a[j]);
      assert i in Ids(b[j]);
    }
  }

  lemma HomesUpdate(a: seq<Tree>, b: seq<Tree>, q: nat, p: int, cpu: seq<int>, class_: seq<int>)
    requires Homes(a, cpu, class_) && Changed(a, b, q)
    requires Ids(b[q]) <= Ids(a[q]) + {p} && (p in Ids(b[q]) ==> 0 <= p < |cpu| && p < |class_| && q == 3 * cpu[p] + class_[p])
    ensures Homes(b, cpu, class_)
  {}

  lemma NotQueued(a: seq<Tree>, q: nat, p: int)
    requires q < |a| && forall j | 0 <= j < |a| && j != q :: p !in Ids(a[j])
    ensures Queued(p, a) <==> p in Ids(a[q])
  {}

  /** What every operation keeps. */
  ghost predicate Inv(h: Heap, pri: seq<int>, stamp: seq<nat>, clock: nat, root: seq<int>, count: seq<nat>, trees: seq<Tree>,
                      cpu: seq<int>, class_: seq<int>)
  {
    && |h| == |pri| == |stamp| == |class_| == |cpu|
    && AllOk(h, pri, stamp, root, count, trees)
    && Stamped(stamp, clock) && Classes(class_) && Detached(h, trees) && Homes(trees, cpu, class_)
  }

  lemma InvInsert(h: Heap, k: Heap, pri: seq<int>, stamp: seq<nat>, clock: nat, root: seq<int>, count: seq<nat>, trees: seq<Tree>,
                  cpu: seq<int>, class_: seq<int>, q: nat, r: int, w: Tree, p: int)
    requires Inv(h, pri, stamp, clock, root, count, trees, cpu, class_) && q < |trees| && 0 <= p < |stamp|
    requires !Queued(p, trees) && q == 3 * cpu[p] + class_[p] && InTable(Inorder(trees[q]), pri)
    requires Zip(k, r, Top, w) && RbTree.Valid(w) && Inorder(w) == Placed(Inorder(trees[q]), p, pri)
    requires Ids(w) == Ids(trees[q]) + {p} && Outside(h, k, Ids(w))
    ensures Inv(k, pri, stamp[p := clock], clock + 1, root[q := r], count[q := count[q] + 1], trees[q := w], cpu, class_)
    ensures Queued(p, trees[q := w]) && Changed(trees, trees[q := w], q)
  {
    assert TreeOk(h, pri, stamp, root[q], count[q], trees[q]);
    InsertedOk(k, pri, stamp, r, trees[q], w, p, clock);
    AllOkUpdate(h, k, pri, stamp, stamp[p := clock], root, count, trees, q, r, count[q] + 1, w, Ids(w));
    DetachedUpdate(h, k, trees, trees[q := w], q);
    HomesUpdate(trees, trees[q := w], q, p, cpu, class_);
    assert p in Ids(trees[q := w][q]);
  }

  lemma InvRemove(h: Heap, k: Heap, pri: seq<int>, stamp: seq<nat>, clock: nat, root: seq<int>, count: seq<nat>, trees: seq<Tree>,
                  cpu: seq<int>, class_: seq<int>, q: nat, r: int, w: Tree, p: int)
    requires Inv(h, pri, stamp, clock, root, count, trees, cpu, class_) && q < |trees| && p in Ids(trees[q]) && 0 <= p < |k|
    requires Zip(k, r, Top, w) && RbTree.Valid(w) && Inorder(w) == Without(Inorder(trees[q]), p)
    requires Ids(w) == Ids(trees[q]) - {p} && Outside(h, k, Ids(trees[q])) && k[p].parent == NULL
    ensures count[q] > 0 && Inv(k, pri, stamp, clock, root[q := r], count[q := count[q] - 1], trees[q := w], cpu, class_)
    ensures !Queued(p, trees[q := w]) && Changed(trees, trees[q := w], q)
  {
    assert TreeOk(h, pri, stamp, root[q], count[q], trees[q]);
    RemovedOk(k, pri, stamp, r, trees[q], w, p);
    AllOkUpdate(h, k, pri, stamp, stamp, root, count, trees, q, r, count[q] - 1, w, Ids(trees[q]));
    DetachedUpdate(h, k, trees, trees[q := w], q);
    HomesUpdate(trees, trees[q := w], q, p, cpu, class_);
    NotQueued(trees[q := w], q, p);
  }

  lemma Rehome(trees: seq<Tree>, was: seq<int>, cpu: seq<int>, class_: seq<int>, p: int)
    requires Homes(trees, was, class_) && !Queued(p, trees) && |was| == |cpu| && forall i | 0 <= i < |was| && i != p :: cpu[i] == was[i]
    ensures Homes(trees, cpu, class_)
  {}

  lemma OrdersUpdate(a: seq<Tree>, b: seq<Tree>, q: nat)
    requires Changed(a, b, q)
    ensures Orders(b) == Orders(a)[q := Inorder(b[q])] && |Orders(a)| == |a| && Orders(a)[q] == Inorder(a[q])
  {}

  /** A process is queued behind all that are not less urgent, and before the first that is. */
  lemma {:induction false} PlacedAt(s: seq<int>, z: int, pri: seq<int>) returns (k: nat)
    requires InTable(s, pri) && 0 <= z < |pri|
    ensures k <= |s| && Placed(s, z, pri) == s[..k] + [z] + s[k..]
    ensures (forall i | 0 <= i < k :: pri[s[i]] <= pri[z]) && (k < |s| ==> pri[z] < pri[s[k]])
  {
    k := 0;
    if s != [] && pri[z] >= pri[s[0]] {
      var n := PlacedAt(s[1..], z, pri);
      k := n + 1;
      assert s[..k] == [s[0]] + s[1..][..n] && s[k..] == s[1..][n..];
    }
  }

  /** The highest non-empty class of CPU c. */
  ghost function First(l: seq<seq<int>>, c: nat): int
    requires 3 * c + 2 < |l|
  {
    if l[3 * c + RT] != [] then 3 * c + RT else if l[3 * c + INTR] != [] then 3 * c + INTR
    else if l[3 * c + BATCH] != [] then 3 * c + BATCH else NULL
  }

  /** The queue of class k on CPU c. */
  ghost function Line(l: seq<seq<int>>, c: nat, k: nat): seq<int>
    requires 3 * c + k < |l|
  {
    l[3 * c + k]
  }

  /** The first n classes of CPU c have no process. */
  ghost predicate Vacant(l: seq<seq<int>>, c: nat, n: nat)
    requires 3 * c + n <= |l|
  {
    forall k: nat | k < n :: Line(l, c, k) == []
  }

  /** It is none exactly if all are empty; else those above it are empty and it is not. */
  lemma FirstIs(l: seq<seq<int>>, c: nat)
    requires 3 * c + 2 < |l|
    ensures First(l, c) == NULL <==> Vacant(l, c, 3)
    ensures var q := First(l, c); q != NULL ==> 3 * c <= q < 3 * c + 3 && l[q] != [] && Vacant(l, c, q - 3 * c)
  {
    var q := First(l, c);
    if q == NULL {
      forall k: nat | k < 3 ensures Line(l, c, k) == [] { assert k == RT || k == INTR || k == BATCH; }
    } else {
      forall k: nat | k < q - 3 * c ensures Line(l, c, k) == [] { assert k == RT || k == INTR; }
      assert Line(l, c, q - 3 * c) != [];
    }
  }

  /** A queued process has the class of its queue. */
  lemma HomeClass(trees: seq<Tree>, cpu: seq<int>, class_: seq<int>, q: nat, c: nat, i: nat)
    requires Homes(trees, cpu, class_) && Classes(class_) && q < |trees| && 3 * c <= q < 3 * c + 3 && Inorder(trees[q]) != [] && i == 0
    ensures var p := Inorder(trees[q])[i]; 0 <= p < |class_| && class_[p] == q - 3 * c
  {
    InorderIds(trees[q]);
    assert AtHome(q, Inorder(trees[q])[i], cpu, class_);
  }

  lemma {:induction false} ParentLink(h: Heap, t: Tree, p: int, i: int)
    requires Shape(h, t, p) && i in Ids(t) && i != Root(t) && 0 <= i < |h|
    ensures h[i].parent in Ids(t)
  {
    if i in Ids(t.left) {
      if i != Root(t.left) { ParentLink(h, t.left, t.id, i); }
    } else if i in Ids(t.right) {
      if i != Root(t.right) { ParentLink(h, t.right, t.id, i); }
    }
  }

  /** The test "has a parent, or is the root" tells membership. */
  lemma MemberTest(h: Heap, pri: seq<int>, stamp: seq<nat>, root: seq<int>, count: seq<nat>, trees: seq<Tree>,
                   cpu: seq<int>, class_: seq<int>, q: nat, p: int)
    requires AllOk(h, pri, stamp, root, count, trees) && Detached(h, trees) && Homes(trees, cpu, class_)
    requires q < |trees| && 0 <= p < |h| && p < |cpu| && p < |class_| && (Queued(p, trees) ==> q == 3 * cpu[p] + class_[p])
    ensures p in Ids(trees[q]) <==> h[p].parent != NULL || root[q] == p
    ensures p in Ids(trees[q]) <==> Queued(p, trees)
    ensures p in Ids(trees[q]) ==> count[q] > 0 && root[q] != NULL
  {
    var t := trees[q];
    assert TreeOk(h, pri, stamp, root[q], count[q], t);
    InorderIds(t);
    ShapeRange(h, t, NULL);
    if p in Ids(t) && p != Root(t) { ParentLink(h, t, NULL, p); }
  }

  // ---------- work stealing, on values ----------

  ghost predicate AllInTable(l: seq<seq<int>>, pri: seq<int>) { forall q | 0 <= q < |l| :: InTable(l[q], pri) }

  lemma {:induction false} PlacedInTable(s: seq<int>, z: int, pri: seq<int>)
    requires InTable(s, pri) && 0 <= z < |pri|
    ensures InTable(Placed(s, z, pri), pri)
  {
    if s != [] && pri[z] >= pri[s[0]] { PlacedInTable(s[1..], z, pri); }
  }

  /** Queue q of CPU v loses its first process to the queue of the same class on CPU u. */
  ghost function Move(l: seq<seq<int>>, q: nat, r: nat, pri: seq<int>): (m: seq<seq<int>>)
    requires AllInTable(l, pri) && q < |l| && r < |l| && q != r && l[q] != []
    ensures |m| == |l| && AllInTable(m, pri)
  {
    PlacedInTable(l[r], l[q][0], pri);
    assert forall i | 0 <= i < |l[q]| - 1 :: l[q][1..][i] == l[q][i + 1];
    l[q := l[q][1..]][r := Placed(l[r], l[q][0], pri)]
  }

  /** One turn of the loop of sched_steal: a BATCH process of CPU v moves to CPU u, else an INTR process. */
  ghost function StealOne(l: seq<seq<int>>, v: nat, u: nat, pri: seq<int>): (m: seq<seq<int>>)
    requires AllInTable(l, pri) && v != u && 3 * v + 2 < |l| && 3 * u + 2 < |l|
    ensures |m| == |l| && AllInTable(m, pri)
  {
    if l[3 * v + BATCH] != [] then Move(l, 3 * v + BATCH, 3 * u + BATCH, pri)
    else if l[3 * v + INTR] != [] then Move(l, 3 * v + INTR, 3 * u + INTR, pri)
    else l
  }

  lemma MoveIs(l: seq<seq<int>>, k: seq<seq<int>>, m: seq<seq<int>>, q: nat, r: nat, n: int, pri: seq<int>)
    requires AllInTable(l, pri) && q < |l| == |k| && r < |l| && q != r && l[q] != [] && n == l[q][0]
    ensures k == l[q := l[q][1..]] && m == k[r := Placed(k[r], n, pri)] ==> m == Move(l, q, r, pri)
  {}

  ghost function StealMany(l: seq<seq<int>>, v: nat, u: nat, pri: seq<int>, n: nat): (m: seq<seq<int>>)
    requires AllInTable(l, pri) && v != u && 3 * v + 2 < |l| && 3 * u + 2 < |l|
    ensures |m| == |l| && AllInTable(m, pri)
    decreases n
  {
    if n == 0 then l else StealOne(StealMany(l, v, u, pri, n - 1), v, u, pri)
  }

  /** The load sched_steal compares: everything but RT. */
  ghost function Stealable(l: seq<seq<int>>, c: nat): nat
    requires 3 * c + 2 < |l|
  {
    |l[3 * c + INTR]| + |l[3 * c + BATCH]|
  }

  lemma {:induction false} PlacedMultiset(s: seq<int>, z: int, pri: seq<int>)
    requires InTable(s, pri) && 0 <= z < |pri|
    ensures multiset(Placed(s, z, pri)) == multiset(s) + multiset{z}
  {
    if s != [] && pri[z] >= pri[s[0]] {
      PlacedMultiset(s[1..], z, pri);
      assert s == [s[0]] + s[1..];
    }
  }

  /** Queues q and r together hold the same processes in l and in m. */
  ghost predicate Together(l: seq<seq<int>>, m: seq<seq<int>>, q: nat, r: nat)
    requires q < |l| == |m| && r < |l|
  {
    multiset(m[q]) + multiset(m[r]) == multiset(l[q]) + multiset(l[r])
  }

  lemma MoveEffect(l: seq<seq<int>>, q: nat, r: nat, pri: seq<int>)
    requires AllInTable(l, pri) && q < |l| && r < |l| && q != r && l[q] != []
    ensures var m := Move(l, q, r, pri);
            && |m[q]| == |l[q]| - 1 && |m[r]| == |l[r]| + 1 && Together(l, m, q, r)
            && forall i | 0 <= i < |l| && i != q && i != r :: m[i] == l[i]
  {
    assert l[q] == [l[q][0]] + l[q][1..];
    PlacedMultiset(l[r], l[q][0], pri);
    PlacedMembers(l[r], l[q][0], pri);
  }

  /** From l to m, n processes moved from queues a, b to queues c, d: none lost or duplicated, other queues alone. */
  ghost predicate Moved(l: seq<seq<int>>, m: seq<seq<int>>, a: nat, b: nat, c: nat, d: nat, n: nat)
    requires a < |l| == |m| && b < |l| && c < |l| && d < |l|
  {
    && |m[a]| + |m[b]| + n == |l[a]| + |l[b]| && |m[c]| + |m[d]| == |l[c]| + |l[d]| + n
    && Together(l, m, a, c) && Together(l, m, b, d)
    && forall q | 0 <= q < |l| && q != a && q != b && q != c && q != d :: m[q] == l[q]
  }

  lemma MovedOne(l: seq<seq<int>>, a: nat, b: nat, c: nat, d: nat, pri: seq<int>)
    requires AllInTable(l, pri) && a < |l| && b < |l| && c < |l| && d < |l|
    requires a != b && a != c && a != d && b != c && b != d && c != d
    ensures l[b] != [] ==> Moved(l, Move(l, b, d, pri), a, b, c, d, 1)
    ensures l[a] != [] ==> Moved(l, Move(l, a, c, pri), a, b, c, d, 1)
  {
    if l[b] != [] { MoveEffect(l, b, d, pri); }
    if l[a] != [] { MoveEffect(l, a, c, pri); }
  }

  lemma MovedTwice(l: seq<seq<int>>, k: seq<seq<int>>, m: seq<seq<int>>, a: nat, b: nat, c: nat, d: nat, i: nat, j: nat)
    requires a < |l| == |m| == |k| && b < |l| && c < |l| && d < |l|
    ensures Moved(l, k, a, b, c, d, i) && Moved(k, m, a, b, c, d, j) ==> Moved(l, m, a, b, c, d, i + j)
  {}

  lemma StealStep(k: seq<seq<int>>, v: nat, u: nat, pri: seq<int>)
    requires AllInTable(k, pri) && v != u && 3 * v + 2 < |k| && 3 * u + 2 < |k| && 0 < Stealable(k, v)
    ensures Moved(k, StealOne(k, v, u, pri), 3 * v + INTR, 3 * v + BATCH, 3 * u + INTR, 3 * u + BATCH, 1)
  {
    MovedOne(k, 3 * v + INTR, 3 * v + BATCH, 3 * u + INTR, 3 * u + BATCH, pri);
  }

  /** What sched_steal does to the queues of victim v and thief u, for any number of turns the victim can supply. */
  lemma {:induction false} StealEffect(l: seq<seq<int>>, v: nat, u: nat, pri: seq<int>, n: nat)
    requires AllInTable(l, pri) && v != u && 3 * v + 2 < |l| && 3 * u + 2 < |l| && n <= Stealable(l, v)
    ensures Moved(l, StealMany(l, v, u, pri, n), 3 * v + INTR, 3 * v + BATCH, 3 * u + INTR, 3 * u + BATCH, n)
  {
    if n > 0 {
      StealEffect(l, v, u, pri, n - 1);
      var k := StealMany(l, v, u, pri, n - 1);
      StealStep(k, v, u, pri);
      MovedTwice(l, k, StealOne(k, v, u, pri), 3 * v + INTR, 3 * v + BATCH, 3 * u + INTR, 3 * u + BATCH, n - 1, 1);
    }
  }

  /** Batch processes go first, and interactive ones only when there are none left; of each class those that would run first. */
  lemma {:induction false} StealOrder(l: seq<seq<int>>, v: nat, u: nat, pri: seq<int>, n: nat)
    requires AllInTable(l, pri) && v != u && 3 * v + 2 < |l| && 3 * u + 2 < |l| && n <= Stealable(l, v)
    ensures var m, batch, intr := StealMany(l, v, u, pri, n), l[3 * v + 2], l[3 * v + 1];
      if n <= |batch| then m[3 * v + 2] == batch[n..] && m[3 * v + 1] == intr
      else m[3 * v + 2] == [] && m[3 * v + 1] == intr[n - |batch|..]
  {
    if n > 0 {
      StealOrder(l, v, u, pri, n - 1);
      StealTail(StealMany(l, v, u, pri, n - 1), v, u, pri);
      DropOne(l[3 * v + 2], n);
      DropOne(l[3 * v + 1], n - |l[3 * v + 2]|);
    }
  }

  lemma DropOne(s: seq<int>, n: int)
    ensures 0 < n <= |s| ==> s[n - 1..] != [] && s[n - 1..][1..] == s[n..]
  {}

  lemma StealTail(k: seq<seq<int>>, v: nat, u: nat, pri: seq<int>)
    requires AllInTable(k, pri) && v != u && 3 * v + 2 < |k| && 3 * u + 2 < |k|
    ensures var m, batch, intr := StealOne(k, v, u, pri), k[3 * v + 2], k[3 * v + 1];
      if batch != [] then m[3 * v + 2] == batch[1..] && m[3 * v + 1] == intr
      else m[3 * v + 2] == [] && (intr != [] ==> m[3 * v + 1] == intr[1..])
  {}

  /** The gap in load between the two CPUs after stealing: what the thief had, give or take one. */
  lemma StealBalances(l: seq<seq<int>>, v: nat, u: nat, pri: seq<int>)
    requires AllInTable(l, pri) && v != u && 3 * v + 2 < |l| && 3 * u + 2 < |l|
    ensures var m, mine, load := StealMany(l, v, u, pri, Stealable(l, v) / 2), Stealable(l, u), Stealable(l, v);
            Stealable(m, u) - Stealable(m, v) == mine - load % 2
  {
    StealEffect(l, v, u, pri, Stealable(l, v) / 2);
  }

  lemma OrdersInTable(h: Heap, pri: seq<int>, stamp: seq<nat>, root: seq<int>, count: seq<nat>, trees: seq<Tree>)
    requires AllOk(h, pri, stamp, root, count, trees)
    ensures AllInTable(Orders(trees), pri)
  {
    forall q | 0 <= q < |trees| ensures InTable(Orders(trees)[q], pri) {
      assert TreeOk(h, pri, stamp, root[q], count[q], trees[q]);
    }
  }

  lemma Counters(h: Heap, pri: seq<int>, stamp: seq<nat>, root: seq<int>, count: seq<nat>, trees: seq<Tree>)
    requires AllOk(h, pri, stamp, root, count, trees)
    ensures forall q | 0 <= q < |trees| :: count[q] == |Orders(trees)[q]|
  {
    forall q | 0 <= q < |trees| ensures count[q] == |Orders(trees)[q]| {
      assert TreeOk(h, pri, stamp, root[q], count[q], trees[q]);
    }
  }

  /** The processes queued on CPU c. */
  ghost function Burden(l: seq<seq<int>>, c: nat): nat
    requires 3 * c + 2 < |l|
  {
    |l[3 * c]| + |l[3 * c + 1]| + |l[3 * c + 2]|
  }

  /** c is the first of the n CPUs with the fewest processes. */
  ghost predicate LeastBurdened(l: seq<seq<int>>, n: nat, c: nat)
    requires 3 * n <= |l| && c < n
  {
    forall i {:trigger Burden(l, i)} | 0 <= i < n :: Burden(l, c) <= Burden(l, i) && (i < c ==> Burden(l, c) < Burden(l, i))
  }

  /** No CPU but u has more to steal than v; unless all have nothing, v is the first such and is not u. */
  ghost predicate Victim(l: seq<seq<int>>, n: nat, v: nat, u: nat)
    requires 3 * n <= |l| && v < n
  {
    forall i | 0 <= i < n && i != u ::
      Stealable(l, i) > 0 ==> v != u && Stealable(l, i) <= Stealable(l, v) && (i < v ==> Stealable(l, i) < Stealable(l, v))
  }

  /** What the search of sched_steal finds among the counters of the first n CPUs. */
  ghost predicate Busy(count: seq<nat>, n: nat, v: nat, u: nat, load: nat)
    requires 3 * n <= |count| && 3 * v + 2 < |count|
  {
    && (forall j | 0 <= j < n && j != u :: Spare(count, j) <= load)
    && (load > 0 ==> v != u && load == Spare(count, v) && forall j | 0 <= j < v && j != u :: Spare(count, j) < load)
  }

  /** intr_count + batch_count */
  function Spare(count: seq<nat>, c: nat): nat
    requires 3 * c + 2 < |count|
  {
    count[3 * c + INTR] + count[3 * c + BATCH]
  }

  lemma BusyVictim(l: seq<seq<int>>, count: seq<nat>, n: nat, v: nat, u: nat, load: nat)
    requires |l| == |count| == 3 * n && v < n && u < n && forall q | 0 <= q < |l| :: count[q] == |l[q]|
    ensures Busy(count, n, v, u, load) ==> Victim(l, n, v, u)
    ensures Busy(count, n, v, u, load) ==> (v != u && Stealable(l, v) > Stealable(l, u) + 2 <==> load > Spare(count, u) + 2)
    ensures Spare(count, v) == Stealable(l, v)
  {
    assert forall j | 0 <= j < n :: Stealable(l, j) == Spare(count, j);
  }

  /** The first process of queue 3 * v + k has class k. */
  lemma FirstHome(trees: seq<Tree>, cpu: seq<int>, class_: seq<int>, v: nat, k: nat)
    requires Homes(trees, cpu, class_) && Classes(class_) && k < 3 && 3 * v + k < |trees| && Inorder(trees[3 * v + k]) != []
    ensures var n := Inorder(trees[3 * v + k])[0]; 0 <= n < |class_| && class_[n] == k
  {
    var q := 3 * v + k;
    var n := Inorder(trees[q])[0];
    InorderIds(trees[q]);
    assert n in Inorder(trees[q]);
    assert n in Ids(trees[q]);
    assert AtHome(q, n, cpu, class_);
  }

  class Scheduler {
    const table: Forest
    const cpus: nat

    /** Root pointer and counter of the RT, INTR and BATCH tree of every CPU: entry 3 * cpu + class. */
    var root: seq<int>
    var count: seq<nat>

    /** sched_class and cpu of every process; idle_pcb of every CPU. */
    var class_: seq<int>
    var cpu: seq<int>
    const idle: seq<int>

    /** PROC_READY or not. */
    var ready: seq<bool>

    ghost var trees: seq<Tree>
    ghost var stamp: seq<nat>
    ghost var clock: nat

    ghost predicate Valid()
      reads this, table
    {
      && cpus > 0 && |trees| == 3 * cpus && |idle| == cpus && |ready| == |cpu|
      && Inv(table.nodes, table.priority, stamp, clock, root, count, trees, cpu, class_)
    }

    /** What the run queues hold: queue 3 * cpu + class in the order in which its processes will run. */
    ghost function Queues(): seq<seq<int>>
      reads this
    {
      Orders(trees)
    }

    /** sched_init */
    constructor (t: Forest, cpuCount: nat, idlePcbs: seq<int>, classes: seq<int>, affinity: seq<int>)
      requires 0 < cpuCount == |idlePcbs| && |t.nodes| == |t.priority| == |classes| == |affinity|
      requires forall i | 0 <= i < |classes| :: 0 <= classes[i] < 3 && t.nodes[i].parent == NULL
      ensures Valid() && table == t && cpus == cpuCount && idle == idlePcbs && class_ == classes && cpu == affinity
      ensures Queues() == seq(3 * cpuCount, _ => [])
    {
      table, cpus, idle, class_, cpu := t, cpuCount, idlePcbs, classes, affinity;
      root, count := seq(3 * cpuCount, _ => NULL), seq(3 * cpuCount, _ => 0);
      ready := seq(|classes|, _ => false);
      trees, stamp, clock := seq(3 * cpuCount, _ => Leaf), seq(|classes|, _ => 0), 1;
      new;
      assert RB(Leaf, 0);
    }

    /** rb_insert into queue q, and the counter. */
    method PutIn(q: nat, p: int)
      requires Valid() && q < |trees| && 0 <= p < |stamp| && !Queued(p, trees) && q == 3 * cpu[p] + class_[p]
      modifies this`root, this`count, this`trees, this`stamp, this`clock, table`nodes
      ensures Valid() && Queued(p, trees)
      ensures Changed(old(trees), trees, q) && InTable(Inorder(old(trees)[q]), table.priority)
      ensures Inorder(trees[q]) == Placed(Inorder(old(trees)[q]), p, table.priority)
      ensures stamp == old(stamp)[p := old(clock)] && clock == old(clock) + 1
    {
      ghost var t := trees[q];
      ghost var h := table.nodes;
      assert TreeOk(table.nodes, table.priority, stamp, root[q], count[q], trees[q]);
      FifoSorted(Inorder(t), table.priority, stamp);
      var r;
      ghost var w;
      r, w := table.Insert(root[q], p, t);
      InvInsert(h, table.nodes, table.priority, stamp, clock, root, count, trees, cpu, class_, q, r, w, p);
      SetQueue(root[q := r], count[q := count[q] + 1], trees[q := w], stamp[p := clock], clock + 1);
    }

    /** The changed roots and counters. */
    method SetQueue(r: seq<int>, n: seq<nat>, ghost w: seq<Tree>, ghost s: seq<nat>, ghost t: nat)
      requires Inv(table.nodes, table.priority, s, t, r, n, w, cpu, class_)
      requires cpus > 0 && |w| == 3 * cpus && |idle| == cpus && |ready| == |cpu|
      modifies this`root, this`count, this`trees, this`stamp, this`clock
      ensures Valid() && root == r && count == n && trees == w && stamp == s && clock == t
    {
      root, count, trees, stamp, clock := r, n, w, s, t;
    }

    /** rb_remove_node from queue q, and the counter. */
    method TakeOut(q: nat, p: int)
      requires Valid() && q < |trees| && p in Ids(trees[q])
      modifies this`root, this`count, this`trees, table`nodes
      ensures Valid() && !Queued(p, trees)
      ensures Changed(old(trees), trees, q) && Inorder(trees[q]) == Without(Inorder(old(trees)[q]), p)
    {
      ghost var t := trees[q];
      ghost var h := table.nodes;
      assert TreeOk(table.nodes, table.priority, stamp, root[q], count[q], trees[q]);
      var r;
      ghost var w;
      r, w := table.RemoveNode(root[q], p, t);
      InvRemove(h, table.nodes, table.priority, stamp, clock, root, count, trees, cpu, class_, q, r, w, p);
      root, count, trees := root[q := r], count[q := count[q] - 1], trees[q := w];
    }
  
    /** rt_count + intr_count + batch_count */
    function Load(c: nat): nat
      requires 3 * c + 2 < |count|
      reads this
    {
      count[3 * c] + count[3 * c + 1] + count[3 * c + 2]
    }

    /** The affinity of p if it names a CPU, else the least loaded CPU, the first of several. */
    method PickCpu(p: int) returns (c: nat)
      requires 0 < cpus && |count| == 3 * cpus && 0 <= p < |cpu|
      ensures c < cpus
      ensures 0 <= cpu[p] < cpus ==> c == cpu[p]
      ensures !(0 <= cpu[p] < cpus) ==> forall i | 0 <= i < cpus :: Load(c) <= Load(i) && (i < c ==> Load(c) < Load(i))
    {
      if 0 <= cpu[p] < cpus { return cpu[p]; }
      c := 0;
      var i := 1;
      while i < cpus
        invariant 1 <= i <= cpus && c < i
        invariant forall j | 0 <= j < i :: Load(c) <= Load(j) && (j < c ==> Load(c) < Load(j))
      {
        if Load(i) < Load(c) { c := i; }
        i := i + 1;
      }
    }

    /** The same, in terms of the queues. */
    method Choose(p: int) returns (c: nat)
      requires Valid() && 0 <= p < |cpu|
      ensures c < cpus && (0 <= cpu[p] < cpus ==> c == cpu[p])
      ensures !(0 <= cpu[p] < cpus) ==> LeastBurdened(Queues(), cpus, c)
    {
      c := PickCpu(p);
      Counters(table.nodes, table.priority, stamp, root, count, trees);
      forall i | 0 <= i < cpus ensures Load(i) == Burden(Queues(), i) {}
    }

    /** sched_enqueue */
    method Enqueue(p: int)
      requires Valid() && 0 <= p < |cpu| && !Queued(p, trees)
      modifies this, table`nodes
      ensures Valid() && ready == old(ready)[p := true] && class_ == old(class_)
      ensures stamp == old(stamp)[p := old(clock)] && clock == old(clock) + 1
      ensures 0 <= cpu[p] < cpus && cpu == old(cpu)[p := cpu[p]] && (0 <= old(cpu[p]) < cpus ==> cpu[p] == old(cpu[p]))
      ensures AllInTable(old(Queues()), table.priority)
      ensures !(0 <= old(cpu[p]) < cpus) ==> LeastBurdened(old(Queues()), cpus, cpu[p])
      ensures var q := 3 * cpu[p] + class_[p];
              Queues() == old(Queues())[q := Placed(old(Queues())[q], p, table.priority)]
    {
      OrdersInTable(table.nodes, table.priority, stamp, root, count, trees);
      var c := Choose(p);
      ghost var was := cpu;
      cpu := cpu[p := c];
      ready := ready[p := true];
      Rehome(trees, was, cpu, class_, p);
      PutIn(3 * c + class_[p], p);
      OrdersUpdate(old(trees), trees, 3 * c + class_[p]);
    }
  
    /** rb_leftmost of queue q, removed; NULL if the queue is empty. */
    method PopFirst(q: nat) returns (n: int)
      requires Valid() && q < |trees|
      modifies this`root, this`count, this`trees, table`nodes
      ensures Valid()
      ensures var l := old(Queues())[q];
              if l == [] then n == NULL && Queues() == old(Queues())
              else n == l[0] && 0 <= n < |stamp| && !Queued(n, trees) && Queues() == old(Queues())[q := l[1..]]
                   && forall i | i in l[1..] :: Ahead(n, i, table.priority, stamp)
    {
      assert TreeOk(table.nodes, table.priority, stamp, root[q], count[q], trees[q]);
      n := table.Leftmost(root[q], trees[q]);
      if n != NULL {
        FifoTail(Inorder(trees[q]), table.priority, stamp);
        TakeOut(q, n);
        OrdersUpdate(old(trees), trees, q);
      }
    }
  
    /** The branches of sched_dequeue. */
    method DequeueFirst(c: nat) returns (p: int)
      requires Valid() && c < cpus
      modifies this`root, this`count, this`trees, table`nodes
      ensures Valid()
      ensures var q := First(old(Queues()), c);
              if q == NULL then p == idle[c] && Queues() == old(Queues())
              else p == old(Queues())[q][0] && Queues() == old(Queues())[q := old(Queues())[q][1..]]
                   && forall i | i in old(Queues())[q][1..] :: Ahead(p, i, table.priority, stamp)
    {
      Counters(table.nodes, table.priority, stamp, root, count, trees);
      var n := NULL;
      if count[3 * c + RT] > 0 {
        n := PopFirst(3 * c + RT);
      } else if count[3 * c + INTR] > 0 {
        n := PopFirst(3 * c + INTR);
      } else if count[3 * c + BATCH] > 0 {
        n := PopFirst(3 * c + BATCH);
      }
      p := if n == NULL then idle[c] else n;
    }

    /** sched_dequeue: the longest-queued process of least priority value in its class, with all higher classes empty; idle,
        and no queue changed, exactly if all three are empty. */
    method Dequeue(c: nat) returns (p: int)
      requires Valid() && c < cpus
      modifies this`root, this`count, this`trees, table`nodes
      ensures Valid() && 3 * c + 3 <= |old(Queues())|
      ensures Vacant(old(Queues()), c, 3) <==> p == idle[c] && Queues() == old(Queues())
      ensures !Vacant(old(Queues()), c, 3) ==>
                && 0 <= p < |class_| && 0 <= class_[p] < 3 && Vacant(old(Queues()), c, class_[p])
                && var l := old(Queues())[3 * c + class_[p]];
                   l != [] && p == l[0] && Queues() == old(Queues())[3 * c + class_[p] := l[1..]]
                   && p < |table.priority| == |stamp|
                   && forall i | i in l[1..] :: 0 <= i < |stamp| && (table.priority[p] < table.priority[i]
                        || (table.priority[p] == table.priority[i] && stamp[p] < stamp[i]))
    {
      ghost var l := Queues();
      FirstIs(l, c);
      ghost var q := First(l, c);
      if q != NULL { HomeClass(trees, cpu, class_, q, c, 0); }
      p := DequeueFirst(c);
    }

    /** sched_takeoff_runq_locked: p leaves the queue of its class on CPU c exactly if it is there and ready. */
    method Takeoff(c: nat, p: int)
      requires Valid() && c < cpus && 0 <= p < |cpu| && (Queued(p, trees) ==> cpu[p] == c)
      modifies this`root, this`count, this`trees, table`nodes
      ensures Valid()
      ensures var q := 3 * c + class_[p]; var l := old(Queues())[q];
              Queues() == if ready[p] && p in l then old(Queues())[q := Without(l, p)] else old(Queues())
      ensures ready[p] ==> !Queued(p, trees)
    {
      if !ready[p] { return; }
      var q := 3 * c + class_[p];
      InorderIds(trees[q]);
      MemberTest(table.nodes, table.priority, stamp, root, count, trees, cpu, class_, q, p);
      if count[q] == 0 || root[q] == NULL { return; }
      if table.nodes[p].parent != NULL || root[q] == p {
        TakeOut(q, p);
        OrdersUpdate(old(trees), trees, q);
      }
    }

    /** "Remove from victim": n, the first of its queue on CPU v, leaves it. */
    method Depart(n: int, v: nat, ghost k: nat)
      requires Valid() && v < cpus && 0 <= n < |class_| && class_[n] == k != RT
      requires Queues()[3 * v + k] != [] && n == Queues()[3 * v + k][0]
      modifies this`root, this`count, this`trees, table`nodes
      ensures Valid() && !Queued(n, trees)
      ensures Queues() == old(Queues())[3 * v + k := old(Queues())[3 * v + k][1..]]
    {
      InorderIds(trees[3 * v + k]);
      if class_[n] == BATCH {
        TakeOut(3 * v + BATCH, n);
      } else {
        TakeOut(3 * v + INTR, n);
      }
      OrdersUpdate(old(trees), trees, 3 * v + k);
    }

    /** "Insert into this CPU" */
    method Arrive(n: int, u: nat, ghost k: nat)
      requires Valid() && u < cpus && 0 <= n < |class_| && class_[n] == k != RT && !Queued(n, trees)
      modifies this`root, this`count, this`trees, this`stamp, this`clock, this`cpu, table`nodes
      ensures Valid() && cpu == old(cpu)[n := u] && AllInTable(old(Queues()), table.priority)
      ensures Queues() == old(Queues())[3 * u + k := Placed(old(Queues())[3 * u + k], n, table.priority)]
    {
      OrdersInTable(table.nodes, table.priority, stamp, root, count, trees);
      ghost var was := cpu;
      cpu := cpu[n := u];
      Rehome(trees, was, cpu, class_, n);
      if class_[n] == BATCH {
        PutIn(3 * u + BATCH, n);
      } else {
        PutIn(3 * u + INTR, n);
      }
      OrdersUpdate(old(trees), trees, 3 * u + k);
    }

    /** rb_leftmost of the tree of class k of CPU v, whose counter is not zero. */
    method Peek(v: nat, k: nat) returns (n: int)
      requires Valid() && v < cpus && k < 3 && count[3 * v + k] > 0
      ensures Queues()[3 * v + k] != [] && n == Queues()[3 * v + k][0] && 0 <= n < |class_| && class_[n] == k
    {
      assert TreeOk(table.nodes, table.priority, stamp, root[3 * v + k], count[3 * v + k], trees[3 * v + k]);
      n := table.Leftmost(root[3 * v + k], trees[3 * v + k]);
      FirstHome(trees, cpu, class_, v, k);
    }

    /** The first process of class k on CPU v moves to CPU u. */
    method Hand(v: nat, u: nat, k: nat, ghost m: seq<seq<int>>)
      requires Valid() && v < cpus && u < cpus && v != u && RT < k < 3 && count[3 * v + k] > 0
      requires AllInTable(Queues(), table.priority) && Queues()[3 * v + k] != []
      requires m == Move(Queues(), 3 * v + k, 3 * u + k, table.priority)
      modifies this`root, this`count, this`trees, this`stamp, this`clock, this`cpu, table`nodes
      ensures Valid() && Queues() == m
    {
      ghost var l := Queues();
      var n := Peek(v, k);
      Depart(n, v, k);
      ghost var j := Queues();
      Arrive(n, u, k);
      MoveIs(l, j, Queues(), 3 * v + k, 3 * u + k, n, table.priority);
    }

    /** The counters decide which case of StealOne applies. */
    lemma TurnCases(v: nat, u: nat, l: seq<seq<int>>, m: seq<seq<int>>)
      requires Valid() && v < cpus && u < cpus && v != u && l == Queues() && AllInTable(l, table.priority)
      requires m == StealOne(l, v, u, table.priority)
      ensures count[3 * v + BATCH] > 0 ==> l[3 * v + BATCH] != [] && m == Move(l, 3 * v + BATCH, 3 * u + BATCH, table.priority)
      ensures count[3 * v + BATCH] == 0 && count[3 * v + INTR] > 0
              ==> l[3 * v + INTR] != [] && m == Move(l, 3 * v + INTR, 3 * u + INTR, table.priority)
      ensures count[3 * v + BATCH] == 0 && count[3 * v + INTR] == 0 ==> m == l
    {
      Counters(table.nodes, table.priority, stamp, root, count, trees);
      assert count[3 * v + BATCH] == |l[3 * v + BATCH]|;
      assert count[3 * v + INTR] == |l[3 * v + INTR]|;
    }

    /** One turn of the loop of sched_steal. */
    method StealTurn(v: nat, u: nat)
      requires Valid() && v < cpus && u < cpus && v != u
      modifies this`root, this`count, this`trees, this`stamp, this`clock, this`cpu, table`nodes
      ensures Valid() && AllInTable(old(Queues()), table.priority)
      ensures Queues() == StealOne(old(Queues()), v, u, table.priority)
    {
      OrdersInTable(table.nodes, table.priority, stamp, root, count, trees);
      ghost var m := StealOne(Queues(), v, u, table.priority);
      TurnCases(v, u, Queues(), m);
      if count[3 * v + BATCH] > 0 {
        Hand(v, u, BATCH, m);
      } else if count[3 * v + INTR] > 0 {
        Hand(v, u, INTR, m);
      }
    }

    /** The loop of sched_steal. */
    method StealTurns(v: nat, u: nat, toMove: nat)
      requires Valid() && v < cpus && u < cpus && v != u
      modifies this`root, this`count, this`trees, this`stamp, this`clock, this`cpu, table`nodes
      ensures Valid() && AllInTable(old(Queues()), table.priority)
      ensures Queues() == StealMany(old(Queues()), v, u, table.priority, toMove)
    {
      OrdersInTable(table.nodes, table.priority, stamp, root, count, trees);
      ghost var l := Queues();
      var i := 0;
      while i < toMove
        invariant i <= toMove && Valid() && Queues() == StealMany(l, v, u, table.priority, i)
      {
        StealTurn(v, u);
        i := i + 1;
      }
    }

    /** The search at the start of sched_steal: load is the most that another CPU has to give, v the first to have it. */
    method Busiest(u: nat) returns (v: nat, load: nat)
      requires 0 < cpus && |count| == 3 * cpus
      ensures v < cpus && Busy(count, cpus, v, u, load)
    {
      v, load := 0, 0;
      var i := 0;
      while i < cpus
        invariant i <= cpus && v < cpus && Busy(count, i, v, u, load)
      {
        if i != u && Spare(count, i) > load { v, load := i, Spare(count, i); }
        i := i + 1;
      }
    }

    /** sched_steal: CPU u takes half of what the busiest other CPU has to give, if that has over two more. */
    method Steal(u: nat) returns (v: nat)
      requires Valid() && u < cpus
      modifies this`root, this`count, this`trees, this`stamp, this`clock, this`cpu, table`nodes
      ensures Valid() && AllInTable(old(Queues()), table.priority)
      ensures v < cpus && Victim(old(Queues()), cpus, v, u)
      ensures var l := old(Queues());
              Queues() == if v != u && Stealable(l, v) > Stealable(l, u) + 2 then StealMany(l, v, u, table.priority, Stealable(l, v) / 2)
                          else l
    {
      OrdersInTable(table.nodes, table.priority, stamp, root, count, trees);
      Counters(table.nodes, table.priority, stamp, root, count, trees);
      ghost var l := Queues();
      var load;
      v, load := Busiest(u);
      BusyVictim(l, count, cpus, v, u, load);
      if load <= Spare(count, u) + 2 { return; }
      StealTurns(v, u, Spare(count, v) / 2);
    }
  }
}
