/** The buddy allocator of kernel/mm/mm.c: free lists per order, page_info, splitting, coalescing and seeding.
    Addresses are page numbers. */
module BuddyAllocator {
  import opened Bits
  import opened BuddyTiling

  const PAGE_FREE := 1
  const PAGE_ALLOC := 2

  datatype PageInfo = PageInfo(flags: nat, order: nat, refcount: nat)

  /** page_info is zero where nothing was written. */
  function InfoOf(info: map<nat, PageInfo>, p: nat): PageInfo { if p in info then info[p] else PageInfo(0, 0, 0) }

  /** The block of order o that holds page p. */
  function At(p: nat, o: nat): Block { Block(Shift(p, o), o) }

  // ---------- page_info ----------

  /** page_info is right at the head of every block; elsewhere in the pool it may hold anything. */
  ghost predicate Informed(info: map<nat, PageInfo>, free: set<Block>, live: set<Block>, pool: set<nat>)
  {
    && (forall b {:trigger First(b)} | b in free :: InfoOf(info, First(b)).flags == PAGE_FREE && InfoOf(info, First(b)).order == b.order)
    && (forall b {:trigger First(b)} | b in live :: InfoOf(info, First(b)).flags == PAGE_ALLOC && InfoOf(info, First(b)).order == b.order)
    && (forall x: nat | x !in pool :: InfoOf(info, x).flags == 0)
  }

  lemma HeadsDiffer(bs: set<Block>, b: Block)
    requires Apart(bs) && b in bs
    ensures forall c | c in bs && c != b :: First(c) != First(b)
  {
    HasFirst(b);
    forall c | c in bs && c != b ensures First(c) != First(b) { HasFirst(c); }
  }

  lemma InformedWrite(info: map<nat, PageInfo>, free: set<Block>, live: set<Block>, pool: set<nat>, b: Block, i: PageInfo)
    requires Informed(info, free, live, pool) && Apart(free + live + {b}) && b !in free && b !in live && First(b) in pool
    requires i.order == b.order
    ensures i.flags == PAGE_FREE ==> Informed(info[First(b) := i], free + {b}, live, pool)
    ensures i.flags == PAGE_ALLOC ==> Informed(info[First(b) := i], free, live + {b}, pool)
  {
    HeadsDiffer(free + live + {b}, b);
    HeadsKept(info, free, live, b, i);
    if i.flags == PAGE_FREE {
      InformedFree(info, free, live, pool, b, i);
    } else if i.flags == PAGE_ALLOC {
      InformedLive(info, free, live, pool, b, i);
    }
  }

  lemma HeadsKept(info: map<nat, PageInfo>, free: set<Block>, live: set<Block>, b: Block, i: PageInfo)
    requires forall c | c in free + live + {b} && c != b :: First(c) != First(b)
    requires b !in free && b !in live
    ensures forall c {:trigger First(c)} | c in free || c in live :: InfoOf(info[First(b) := i], First(c)) == InfoOf(info, First(c))
  {}

  lemma InformedFree(info: map<nat, PageInfo>, free: set<Block>, live: set<Block>, pool: set<nat>, b: Block, i: PageInfo)
    requires Informed(info, free, live, pool) && First(b) in pool && i.flags == PAGE_FREE && i.order == b.order
    requires forall c {:trigger First(c)} | c in free || c in live :: InfoOf(info[First(b) := i], First(c)) == InfoOf(info, First(c))
    ensures Informed(info[First(b) := i], free + {b}, live, pool)
  {}

  lemma InformedLive(info: map<nat, PageInfo>, free: set<Block>, live: set<Block>, pool: set<nat>, b: Block, i: PageInfo)
    requires Informed(info, free, live, pool) && First(b) in pool && i.flags == PAGE_ALLOC && i.order == b.order
    requires forall c {:trigger First(c)} | c in free || c in live :: InfoOf(info[First(b) := i], First(c)) == InfoOf(info, First(c))
    ensures Informed(info[First(b) := i], free, live + {b}, pool)
  {}

  /** With h in hand, the test of amm_phys_free on page_info is exact: entries left inside blocks are never seen. */
  lemma NoStale(info: map<nat, PageInfo>, free: set<Block>, live: set<Block>, pool: set<nat>, h: Block)
    requires Informed(info, free, live, pool) && Tiled(free + live + {h}, pool)
    ensures var i := InfoOf(info, First(Buddy(h)));
            And(i.flags, PAGE_FREE) != 0 && i.order == h.order <==> Buddy(h) in free
  {
    var p := First(Buddy(h));
    AndOne(InfoOf(info, p).flags);
    if p in pool {
      assert InSome(free + live + {h}, p);
      var c :| c in free + live + {h} && Has(c, p);
      BuddyHead(free + live + {h}, h, c);
      HasFirst(Buddy(h));
    } else {
      HasFirst(Buddy(h));
      assert !InSome(free + live + {h}, p);
    }
  }

  // ---------- free lists ----------

  ghost predicate NoDups(s: seq<nat>) { forall i, j | 0 <= i < j < |s| :: s[i] != s[j] }

  ghost predicate Listing(p: nat, o: nat, free: set<Block>) { At(p, o) in free && First(At(p, o)) == p }

  /** lists[o] holds the heads of the free blocks of order o, each once. */
  ghost predicate Listed(lists: seq<seq<nat>>, free: set<Block>)
  {
    && |lists| == MAX_ORDER + 1
    && (forall o, p {:trigger Listing(p, o, free)} | 0 <= o < |lists| && p in lists[o] :: Listing(p, o, free))
    && (forall b {:trigger First(b)} | b in free :: b.order < |lists| && First(b) in lists[b.order])
    && (forall o | 0 <= o < |lists| :: NoDups(lists[o]))
  }

  /** The sum of the sizes of all listed blocks of order below n. */
  ghost function Sizes(lists: seq<seq<nat>>, n: nat): nat
    requires n <= |lists|
  {
    if n == 0 then 0 else Sizes(lists, n - 1) + |lists[n - 1]| * Pow2(n - 1)
  }

  lemma {:induction false} SizesUpdate(a: seq<seq<nat>>, b: seq<seq<nat>>, o: nat, n: nat)
    requires n <= |a| == |b| && o < |a| && forall i | 0 <= i < |a| && i != o :: b[i] == a[i]
    ensures |b[o]| == |a[o]| + 1 ==> Sizes(b, n) == Sizes(a, n) + if o < n then Pow2(o) else 0
  {
    if n > 0 { SizesUpdate(a, b, o, n - 1); }
  }

  /** The free lists and the counter stand for the set free. */
  ghost predicate Stocked(lists: seq<seq<nat>>, count: nat, free: set<Block>)
  {
    Listed(lists, free) && count == Sizes(lists, |lists|) == |Cover(free)|
  }

  lemma NoDupsCons(x: nat, s: seq<nat>)
    requires NoDups(s) && x !in s
    ensures NoDups([x] + s)
  {
    assert forall i | 1 <= i < |s| + 1 :: ([x] + s)[i] == s[i - 1];
  }

  lemma ListedAdd(lists: seq<seq<nat>>, free: set<Block>, b: Block, l: seq<nat>)
    requires Listed(lists, free) && b !in free && b.order <= MAX_ORDER && l == [First(b)] + lists[b.order]
    ensures Listed(lists[b.order := l], free + {b})
  {
    HasFirst(b);
    var now := lists[b.order := l];
    forall o, p | 0 <= o < |now| && p in now[o] ensures Listing(p, o, free + {b}) {
      if o != b.order || p != First(b) { assert p in lists[o] && Listing(p, o, free); }
    }
    forall c | c in free + {b} ensures c.order < |now| && First(c) in now[c.order] {
      var p := First(c);
      if c == b { assert p == l[0]; } else { assert p in lists[c.order]; }
    }
    assert !Listing(First(b), b.order, free);
    NoDupsCons(First(b), lists[b.order]);
  }

  lemma StockedAdd(lists: seq<seq<nat>>, count: nat, free: set<Block>, b: Block)
    requires Stocked(lists, count, free) && b !in free && b.order <= MAX_ORDER && Apart(free + {b})
    ensures Stocked(lists[b.order := [First(b)] + lists[b.order]], count + Pow2(b.order), free + {b})
  {
    ListedAdd(lists, free, b, [First(b)] + lists[b.order]);
    SizesUpdate(lists, lists[b.order := [First(b)] + lists[b.order]], b.order, |lists|);
    CoverAdd(free, b);
  }

  lemma ListedRemove(lists: seq<seq<nat>>, free: set<Block>, b: Block, l: seq<nat>, m: seq<nat>)
    requires Listed(lists, free) && b in free && b.order <= MAX_ORDER && lists[b.order] == l + [First(b)] + m
    ensures Listed(lists[b.order := l + m], free - {b})
  {
    HasFirst(b);
    var o, f, was, now := b.order, First(b), lists[b.order], l + m;
    assert was[|l|] == f;
    assert forall i | 0 <= i < |now| :: now[i] == was[if i < |l| then i else i + 1];
    forall p | p in now ensures p in was && p != f {
      var i :| 0 <= i < |now| && now[i] == p;
      assert was[if i < |l| then i else i + 1] == p;
    }
    forall c | c in free && c != b && c.order == o ensures First(c) in now {
      HasFirst(c);
      var i :| 0 <= i < |was| && was[i] == First(c);
      assert i != |l| && was[i] == now[if i < |l| then i else i - 1];
    }
    var next := lists[o := now];
    forall i, p | 0 <= i < |next| && p in next[i] ensures Listing(p, i, free - {b}) {
      assert p in lists[i] && Listing(p, i, free);
    }
    forall c | c in free - {b} ensures c.order < |next| && First(c) in next[c.order] {
      var p := First(c);
      assert p in lists[c.order];
    }
  }

  lemma StockedRemove(lists: seq<seq<nat>>, count: nat, free: set<Block>, b: Block, l: seq<nat>, m: seq<nat>)
    requires Stocked(lists, count, free) && b in free && b.order <= MAX_ORDER && Apart(free)
    requires lists[b.order] == l + [First(b)] + m
    ensures count >= Pow2(b.order) && Stocked(lists[b.order := l + m], count - Pow2(b.order), free - {b})
  {
    ListedRemove(lists, free, b, l, m);
    SizesUpdate(lists[b.order := l + m], lists, b.order, |lists|);
    CoverAdd(free - {b}, b);
    assert free - {b} + {b} == free;
  }

  lemma {:induction false} Empty(lists: seq<seq<nat>>, n: nat)
    requires n <= |lists| && forall o | 0 <= o < |lists| :: lists[o] == []
    ensures Sizes(lists, n) == 0 && |Cover({})| == 0
  {
    if n > 0 { Empty(lists, n - 1); }
    assert Cover({}) == {};
  }

  lemma TakeStep(lists: seq<seq<nat>>, count: nat, free: set<Block>, o: nat, i: nat, b: Block)
    requires Stocked(lists, count, free) && Apart(free) && o <= MAX_ORDER && i < |lists[o]| && b == At(lists[o][i], o)
    ensures b in free && First(b) == lists[o][i] && count >= Pow2(o)
    ensures Stocked(lists[o := lists[o][..i] + lists[o][i + 1..]], count - Pow2(o), free - {b})
  {
    assert Listing(lists[o][i], o, free);
    assert lists[o] == lists[o][..i] + [lists[o][i]] + lists[o][i + 1..];
    StockedRemove(lists, count, free, b, lists[o][..i], lists[o][i + 1..]);
  }

  // ---------- one block in hand ----------

  /** h is neither free nor live; with it, the blocks tile the pool. */
  ghost predicate Holding(free: set<Block>, live: set<Block>, h: Block, pool: set<nat>)
  {
    Tiled(free + live + {h}, pool) && free !! live && h !in free && h !in live
  }

  lemma HoldSplit(free: set<Block>, live: set<Block>, h: Block, pool: set<nat>)
    requires Holding(free, live, h, pool) && h.order > 0
    ensures Upper(h) !in free && Holding(free + {Upper(h)}, live, Lower(h), pool)
    ensures NoMerge(free) ==> NoMerge(free + {Upper(h)})
  {
    var all := free + live + {h};
    SplitTiled(all, pool, h);
    assert all - {h} + {Lower(h), Upper(h)} == free + {Upper(h)} + live + {Lower(h)};
    HasFirst(Lower(h));
    HasFirst(Upper(h));
    Halves(h, First(Lower(h)));
    Halves(h, First(Upper(h)));
    assert Buddy(Upper(h)) == Lower(h);
    forall b | Buddy(b) == Upper(h) ensures b == Lower(h) {}
  }

  lemma HoldMerge(free: set<Block>, live: set<Block>, h: Block, pool: set<nat>)
    requires Holding(free, live, h, pool) && h.order < MAX_ORDER && Buddy(h) in free
    ensures Holding(free - {Buddy(h)}, live, Parent(h), pool)
    ensures NoMerge(free) ==> NoMerge(free - {Buddy(h)})
  {
    var all := free + live + {h};
    MergeTiled(all, pool, h);
    assert all - {h, Buddy(h)} + {Parent(h)} == free - {Buddy(h)} + live + {Parent(h)};
    HasFirst(h);
    Halves(Parent(h), First(h));
  }

  lemma MergeStep(free: set<Block>, live: set<Block>, h: Block, pool: set<nat>, info: map<nat, PageInfo>)
    requires h.order < MAX_ORDER && Buddy(h) in free
    ensures Holding(free, live, h, pool) ==> Apart(free) && Holding(free - {Buddy(h)}, live, Parent(h), pool)
    ensures Holding(free, live, h, pool) && NoMerge(free) ==> NoMerge(free - {Buddy(h)})
    ensures Informed(info, free, live, pool) ==> Informed(info, free - {Buddy(h)}, live, pool)
  {
    if Holding(free, live, h, pool) { HoldMerge(free, live, h, pool); }
  }

  lemma ParentFirst(h: Block)
    ensures First(Parent(h)) == if First(h) < First(Buddy(h)) then First(h) else First(Buddy(h))
  {
    FirstIs(h);
    FirstIs(Buddy(h));
    FirstIs(Parent(h));
    var k, m := h.index, Pow2(h.order);
    assert Flip(k) * m == if k % 2 == 0 then k * m + m else k * m - m;
    assert k / 2 * (2 * m) == k / 2 * 2 * m;
  }

  lemma SameBlock(b: Block, c: Block)
    requires b.order == c.order && First(b) == First(c)
    ensures b == c
  {
    HasFirst(b);
    HasFirst(c);
  }

  /** A block in hand that cannot be merged may be freed. */
  lemma FreeStep(free: set<Block>, live: set<Block>, h: Block, pool: set<nat>)
    ensures Holding(free, live, h, pool) && h.order <= MAX_ORDER ==> Loose(free, live, h, pool) && Tiled(free + {h} + live, pool)
    ensures NoMerge(free) && (h.order == MAX_ORDER || Buddy(h) !in free) ==> NoMerge(free + {h})
  {
    if Holding(free, live, h, pool) { HoldHead(free, live, h, pool); }
    if NoMerge(free) && (h.order == MAX_ORDER || Buddy(h) !in free) { NoMergeAdd(free, h); }
    assert free + {h} + live == free + live + {h};
  }

  lemma HoldHead(free: set<Block>, live: set<Block>, h: Block, pool: set<nat>)
    requires Holding(free, live, h, pool)
    ensures First(h) in pool
  {
    HasFirst(h);
    assert InSome(free + live + {h}, First(h));
  }

  /** b may join the free blocks. */
  ghost predicate Loose(free: set<Block>, live: set<Block>, b: Block, pool: set<nat>)
  {
    b.order <= MAX_ORDER && b !in free && b !in live && First(b) in pool && Apart(free + live + {b})
  }

  lemma HoldLoose(free: set<Block>, live: set<Block>, lower: Block, upper: Block, pool: set<nat>)
    ensures Holding(free + {upper}, live, lower, pool) && upper !in free ==> Loose(free, live, upper, pool)
  {
    assert free + live + {upper} <= free + {upper} + live + {lower};
    HasFirst(upper);
    assert InSome(free + {upper} + live + {lower}, First(upper));
  }

  lemma HalveStep(free: set<Block>, live: set<Block>, h: Block, pool: set<nat>, l: Block, u: Block)
    requires h.order > 0 && l == Lower(h) && u == Upper(h)
    ensures Holding(free, live, h, pool) ==> Loose(free, live, u, pool) && Holding(free + {u}, live, l, pool)
    ensures Holding(free, live, h, pool) && NoMerge(free) ==> NoMerge(free + {u})
  {
    if Holding(free, live, h, pool) { HoldSplit(free, live, h, pool); }
    HoldLoose(free, live, l, u, pool);
  }

  lemma HalveHeads(h: Block, l: Block, u: Block)
    requires h.order > 0 && l == Lower(h) && u == Upper(h)
    ensures First(l) == First(h) && First(u) == Xor(First(l), Pow2(l.order))
  {
    assert u == Block(Flip(l.index), l.order) && l == Block(l.index, l.order);
    XorFirst(l.index, l.order);
  }

  lemma SettleStep(info: map<nat, PageInfo>, free: set<Block>, live: set<Block>, pool: set<nat>, h: Block, i: PageInfo)
    requires Holding(free, live, h, pool) && Informed(info, free, live, pool) && i.order == h.order && i.flags == PAGE_ALLOC
    ensures Tiled(free + (live + {h}), pool) && Informed(info[First(h) := i], free, live + {h}, pool) && First(h) in pool
  {
    HoldHead(free, live, h, pool);
    InformedWrite(info, free, live, pool, h, i);
    assert free + (live + {h}) == free + live + {h};
  }

  /** The search for a list that is not empty finds the smallest order that serves. */
  lemma NoneListed(lists: seq<seq<nat>>, free: set<Block>, order: nat, o: nat)
    requires Listed(lists, free) && order <= o <= MAX_ORDER + 1 && forall i | order <= i < o :: lists[i] == []
    ensures forall b | b in free && b.order >= order :: o <= b.order <= MAX_ORDER
    ensures o <= MAX_ORDER && lists[o] != [] ==> exists b | b in free :: b.order >= order
  {
    forall b | b in free && b.order >= order ensures o <= b.order <= MAX_ORDER {
      var p := First(b);
      assert p in lists[b.order];
    }
    if o <= MAX_ORDER && lists[o] != [] {
      assert lists[o][0] in lists[o] && Listing(lists[o][0], o, free);
      assert At(lists[o][0], o).order >= order;
    }
  }

  lemma NoMergeLess(f: set<Block>, g: set<Block>)
    requires g <= f
    ensures NoMerge(f) ==> NoMerge(g)
  {}

  lemma NoMergeAdd(free: set<Block>, h: Block)
    requires NoMerge(free) && (h.order >= MAX_ORDER || Buddy(h) !in free)
    ensures NoMerge(free + {h})
  {
    forall b | b in free && Buddy(b) == h ensures b == Buddy(h) {}
  }

  /** A page is in a free block exactly if it is in the pool and in no live block. */
  lemma FreeIs(free: set<Block>, live: set<Block>, pool: set<nat>, x: nat)
    requires Tiled(free + live, pool) && free !! live
    ensures InSome(free, x) <==> x in pool && !InSome(live, x)
    ensures InSome(live, x) ==> x in pool
  {
    assert InSome(free + live, x) <==> InSome(free, x) || InSome(live, x);
  }

  /** The pages of a block that became live were free. */
  lemma WasFree(free: set<Block>, live: set<Block>, now: set<Block>, h: Block, pool: set<nat>)
    requires Tiled(free + live, pool) && free !! live && Tiled(now + (live + {h}), pool) && h !in live
    ensures forall x: nat | Has(h, x) :: InSome(free, x)
  {
    forall x: nat | Has(h, x) ensures InSome(free, x) {
      FreeIs(free, live, pool, x);
      assert InSome(now + (live + {h}), x);
      forall c | c in live ensures !Has(c, x) {}
    }
  }

  lemma SubApart(free: set<Block>, live: set<Block>)
    requires Orders(free + live) && Apart(free + live)
    ensures Orders(free) && Apart(free)
  {}

  // ---------- seeding ----------

  ghost predicate From(lo: nat, x: nat) { lo <= x }

  ghost function Range(lo: nat, hi: nat): set<nat> { set x: nat | x < hi && From(lo, x) }

  lemma RangeSplit(was: set<nat>, pool: set<nat>, lo: nat, mid: nat, hi: nat)
    requires pool == was + Range(lo, mid) && lo <= mid <= hi && forall x: nat | mid <= x < hi :: x !in was
    ensures pool + Range(mid, hi) == was + Range(lo, hi) && forall x: nat | mid <= x < hi :: x !in pool
  {}

  lemma SeedTiled(bs: set<Block>, pool: set<nat>, b: Block, lo: nat, hi: nat)
    requires Tiled(bs, pool) && b.order <= MAX_ORDER && First(b) == lo && hi == lo + Pow2(b.order)
    requires forall x: nat | lo <= x < hi :: x !in pool
    ensures b !in bs && Tiled(bs + {b}, pool + Range(lo, hi)) && lo in Range(lo, hi)
  {
    HasFirst(b);
    assert !InSome(bs, lo);
    forall x: nat ensures Has(b, x) <==> x in Range(lo, hi) { HasRange(b, x); }
    forall x: nat ensures InSome(bs + {b}, x) <==> InSome(bs, x) || Has(b, x) {}
    forall c, x: nat | c in bs && Has(c, x) ensures !Has(b, x) { assert InSome(bs, x); }
  }

  lemma SeedStep(free: set<Block>, live: set<Block>, pool: set<nat>, b: Block, lo: nat, hi: nat)
    requires Tiled(free + live, pool) && b.order <= MAX_ORDER && First(b) == lo && hi == lo + Pow2(b.order)
    requires forall x: nat | lo <= x < hi :: x !in pool
    ensures Loose(free, live, b, pool + Range(lo, hi)) && Tiled(free + {b} + live, pool + Range(lo, hi))
  {
    SeedTiled(free + live, pool, b, lo, hi);
    assert free + {b} + live == free + live + {b};
  }

  lemma InformedGrow(info: map<nat, PageInfo>, free: set<Block>, live: set<Block>, pool: set<nat>, more: set<nat>)
    ensures Informed(info, free, live, pool) ==> Informed(info, free, live, pool + more)
  {}

  /** Every free block that could be the lower half of a larger one would reach past the end of the range. */
  ghost predicate Greedy(free: set<Block>, end: nat)
  {
    forall b {:trigger First(b)} | b in free && b.order < MAX_ORDER && b.index % 2 == 0 :: First(b) + Pow2(b.order + 1) > end
  }

  lemma PastEnd(free: set<Block>, end: nat, b: Block)
    requires Greedy(free, end) && b in free && b.order < MAX_ORDER && b.index % 2 == 0
    ensures exists x: nat :: x >= end && Has(Buddy(b), x)
  {
    var u := Buddy(b);
    FirstNext(b.index, b.order);
    var last := First(u) + Pow2(b.order) - 1;
    HasRange(u, last);
  }

  lemma GreedyNoMerge(free: set<Block>, live: set<Block>, pool: set<nat>, end: nat)
    requires Tiled(free + live, pool) && Greedy(free, end) && forall x: nat | x in pool :: x < end
    ensures NoMerge(free)
  {
    forall b | b in free && b.order < MAX_ORDER && b.index % 2 == 0 ensures Buddy(b) !in free {
      PastEnd(free, end, b);
      var x: nat :| x >= end && Has(Buddy(b), x);
      assert !InSome(free + live, x);
    }
    forall b | b in free && b.order < MAX_ORDER ensures Buddy(b) !in free {
      assert Buddy(Buddy(b)) == b;
    }
  }

  lemma EvenAligned(b: Block)
    requires b.index % 2 == 0
    ensures First(b) % Pow2(b.order + 1) == 0
  {
    FirstIs(Parent(b));
    assert Lower(Parent(b)) == b;
    MultipleMod(First(b), b.index / 2, Pow2(b.order + 1));
  }

  lemma GreedyAdd(free: set<Block>, end: nat, b: Block)
    requires b.order == MAX_ORDER || First(b) + Pow2(b.order + 1) > end || First(b) % Pow2(b.order + 1) != 0
    ensures Greedy(free, end) ==> Greedy(free + {b}, end)
  {
    if b.index % 2 == 0 { EvenAligned(b); }
  }

  /** page is the first of a free block that is large enough, and none that is so is smaller. */
  ghost predicate BestFit(free: set<Block>, order: nat, page: nat)
  {
    exists b | b in free :: First(b) == page && order <= b.order && forall c | c in free && order <= c.order :: b.order <= c.order
  }

  class PhysMemory {
    var lists: seq<seq<nat>>
    var info: map<nat, PageInfo>
    var freePages: nat

    ghost var free: set<Block>
    ghost var live: set<Block>
    ghost var pool: set<nat>

    /** Free and live blocks are aligned and disjoint and tile the pool; lists, counter and page_info say so. */
    ghost predicate Valid()
      reads this
    {
      && Tiled(free + live, pool) && free !! live && 0 !in pool
      && Stocked(lists, freePages, free) && Informed(info, free, live, pool)
    }

    /** Valid, but for the block h which is being split or merged. */
    ghost predicate InHand(h: Block)
      reads this
    {
      && Holding(free, live, h, pool) && 0 !in pool
      && Stocked(lists, freePages, free) && Informed(info, free, live, pool)
    }

    constructor ()
      ensures Valid() && free == {} && live == {} && pool == {}
    {
      lists, info, freePages := seq(MAX_ORDER + 1, _ => []), map[], 0;
      free, live, pool := {}, {}, {};
      new;
      Empty(lists, |lists|);
    }

    /** phys_free_block */
    method FreeBlock(page: nat, order: nat, ghost b: Block)
      requires Stocked(lists, freePages, free) && Informed(info, free, live, pool)
      requires Loose(free, live, b, pool) && b.order == order && First(b) == page
      modifies this`lists, this`info, this`freePages, this`free
      ensures free == old(free) + {b} && Stocked(lists, freePages, free) && Informed(info, free, live, pool)
    {
      assert Apart(free + {b});
      StockedAdd(lists, freePages, free, b);
      InformedWrite(info, free, live, pool, b, PageInfo(PAGE_FREE, order, InfoOf(info, page).refcount));
      lists := lists[order := [page] + lists[order]];
      info := info[page := PageInfo(PAGE_FREE, order, InfoOf(info, page).refcount)];
      freePages := freePages + Pow2(order);
      free := free + {b};
    }

    /** The block at position i of lists[o] leaves the list. */
    method Take(o: nat, i: nat) returns (ghost b: Block)
      requires Stocked(lists, freePages, free) && Apart(free) && o <= MAX_ORDER && i < |lists[o]|
      modifies this`lists, this`freePages, this`free
      ensures b.order == o && First(b) == old(lists[o][i]) && b in old(free) && free == old(free) - {b}
      ensures Stocked(lists, freePages, free)
    {
      b := At(lists[o][i], o);
      TakeStep(lists, freePages, free, o, i, b);
      lists := lists[o := lists[o][..i] + lists[o][i + 1..]];
      freePages := freePages - Pow2(o);
      free := free - {b};
    }

    /** The head of lists[o] leaves the list. */
    method Pop(o: nat) returns (page: nat, ghost h: Block)
      requires Valid() && o <= MAX_ORDER && lists[o] != []
      modifies this`lists, this`freePages, this`free
      ensures h.order == o && First(h) == page && h in old(free) && free == old(free) - {h} && InHand(h)
      ensures NoMerge(old(free)) ==> NoMerge(free)
    {
      page := lists[o][0];
      h := Take(o, 0);
      NoMergeLess(old(free), free);
      assert free + live + {h} == old(free) + live;
    }

    /** One turn of the splitting loop: the upper half of the block in hand is freed. */
    method Halve(page: nat, o: nat, ghost h: Block) returns (ghost lower: Block)
      requires InHand(h) && h.order == o + 1 <= MAX_ORDER && First(h) == page
      modifies this`lists, this`info, this`freePages, this`free
      ensures InHand(lower) && lower.order == o && First(lower) == page
      ensures NoMerge(old(free)) ==> NoMerge(free)
    {
      lower := Lower(h);
      ghost var upper := Upper(h);
      HalveStep(free, live, h, pool, lower, upper);
      HalveHeads(h, lower, upper);
      FreeBlock(Xor(page, Pow2(o)), o, upper);
    }

    /** The loop of amm_phys_alloc that splits the block in hand down to the requested order. */
    method Split(page: nat, top: nat, order: nat, ghost block: Block) returns (ghost h: Block)
      requires InHand(block) && block.order == top <= MAX_ORDER && First(block) == page && order <= top
      modifies this`lists, this`info, this`freePages, this`free
      ensures InHand(h) && h.order == order && First(h) == page
      ensures NoMerge(old(free)) ==> NoMerge(free)
    {
      var o := top;
      h := block;
      while o > order
        invariant order <= o <= top && InHand(h) && h.order == o && First(h) == page
        invariant NoMerge(old(free)) ==> NoMerge(free)
      {
        o := o - 1;
        h := Halve(page, o, h);
      }
    }

    /** The end of amm_phys_alloc: the block in hand becomes live. */
    method Settle(page: nat, order: nat, ghost h: Block)
      requires InHand(h) && h.order == order && First(h) == page
      modifies this`info, this`live
      ensures Valid() && live == old(live) + {h} && h !in old(live) && page in pool
    {
      SettleStep(info, free, live, pool, h, PageInfo(PAGE_ALLOC, order, 1));
      info := info[page := PageInfo(PAGE_ALLOC, order, 1)];
      live := live + {h};
    }

    /** The search of amm_phys_alloc: the least order from the requested one up with a free block. */
    method Find(order: nat) returns (o: nat)
      requires Listed(lists, free) && order <= MAX_ORDER
      ensures order <= o <= MAX_ORDER + 1 && (o <= MAX_ORDER ==> lists[o] != [])
      ensures o <= MAX_ORDER <==> exists b | b in free :: b.order >= order
      ensures forall b | b in free && b.order >= order :: o <= b.order
    {
      o := order;
      while o <= MAX_ORDER && lists[o] == []
        invariant order <= o <= MAX_ORDER + 1 && forall i | order <= i < o :: lists[i] == []
      {
        o := o + 1;
      }
      NoneListed(lists, free, order, o);
    }

    /** The body of the loop of amm_phys_alloc, for the order found. */
    method Carve(o: nat, order: nat) returns (page: nat, ghost h: Block, ghost from: Block)
      requires Valid() && order <= o <= MAX_ORDER && lists[o] != []
      modifies this
      ensures Valid() && pool == old(pool) && (NoMerge(old(free)) ==> NoMerge(free))
      ensures h.order == order && First(h) == page && h !in old(live) && live == old(live) + {h} && page in pool
      ensures forall x: nat | Has(h, x) :: InSome(old(free), x)
      ensures from in old(free) && from.order == o && First(from) == page
    {
      page, h := Pop(o);
      from := h;
      h := Split(page, o, order, h);
      Settle(page, order, h);
      WasFree(old(free), old(live), free, h, pool);
    }

    /** amm_phys_alloc: 0 exactly if no free block is large enough; else a block of that order whose pages were free, from the
        start of one of the smallest that are. */
    method Alloc(order: nat) returns (page: nat, ghost h: Block)
      requires Valid()
      modifies this
      ensures Valid() && pool == old(pool) && (NoMerge(old(free)) ==> NoMerge(free))
      ensures page == 0 <==> order > MAX_ORDER || forall b | b in old(free) :: b.order < order
      ensures page == 0 ==> free == old(free) && live == old(live) && lists == old(lists) && info == old(info)
      ensures page != 0 ==> h.order == order && First(h) == page && h !in old(live) && live == old(live) + {h}
      ensures page != 0 ==> forall x: nat | Has(h, x) :: InSome(old(free), x)
      ensures page != 0 ==> BestFit(old(free), order, page)
    {
      page, h := 0, Block(0, 0);
      if order <= MAX_ORDER {
        var o := Find(order);
        if o <= MAX_ORDER {
          ghost var from;
          page, h, from := Carve(o, order);
          assert from in old(free) && order <= from.order;
        }
      }
    }

    /** The pointer walk of amm_phys_free: block b, found by its page, leaves lists[order]. */
    method Unlink(page: nat, order: nat, ghost b: Block)
      requires Stocked(lists, freePages, free) && Apart(free) && b in free && b.order == order <= MAX_ORDER && First(b) == page
      modifies this`lists, this`freePages, this`free
      ensures free == old(free) - {b} && Stocked(lists, freePages, free)
    {
      var i := 0;
      while i < |lists[order]| && lists[order][i] != page
        invariant 0 <= i <= |lists[order]| && page !in lists[order][..i]
      {
        i := i + 1;
      }
      assert page in lists[order];
      if i < |lists[order]| {
        ghost var c := Take(order, i);
        SameBlock(b, c);
      }
    }

    /** One turn of the coalescing loop: the free buddy of the block in hand is merged with it. */
    method Merge(page: nat, order: nat, buddy: nat, ghost h: Block) returns (ghost parent: Block)
      requires InHand(h) && h.order == order < MAX_ORDER && First(h) == page && First(Buddy(h)) == buddy && Buddy(h) in free
      modifies this`lists, this`freePages, this`free
      ensures parent == Parent(h) && InHand(parent) && First(parent) == if page < buddy then page else buddy
      ensures NoMerge(old(free)) ==> NoMerge(free)
    {
      parent := Parent(h);
      MergeStep(free, live, h, pool, info);
      Unlink(buddy, order, Buddy(h));
      ParentFirst(h);
    }

    /** The coalescing loop of amm_phys_free. */
    method Coalesce(page: nat, order: nat, ghost block: Block) returns (p: nat, o: nat, ghost h: Block)
      requires InHand(block) && block.order == order <= MAX_ORDER && First(block) == page
      modifies this`lists, this`freePages, this`free
      ensures InHand(h) && h.order == o <= MAX_ORDER && First(h) == p && (o == MAX_ORDER || Buddy(h) !in free)
      ensures NoMerge(old(free)) ==> NoMerge(free)
    {
      p, o, h := page, order, block;
      while o < MAX_ORDER
        invariant InHand(h) && h.order == o <= MAX_ORDER && First(h) == p
        invariant NoMerge(old(free)) ==> NoMerge(free)
      {
        var buddy := Xor(p, Pow2(o));
        XorFirst(h.index, o);
        assert h == Block(h.index, o);
        NoStale(info, free, live, pool, h);
        if And(InfoOf(info, buddy).flags, PAGE_FREE) == 0 || InfoOf(info, buddy).order != o { break; }
        h := Merge(p, o, buddy, h);
        p := if p < buddy then p else buddy;
        o := o + 1;
      }
    }

    /** amm_phys_free, of a live block with the order of its allocation. */
    method Free(page: nat, order: nat, ghost b: Block)
      requires Valid() && b in live && b.order == order && First(b) == page
      modifies this
      ensures Valid() && pool == old(pool) && live == old(live) - {b} && (NoMerge(old(free)) ==> NoMerge(free))
    {
      live := live - {b};
      assert free + live + {b} == free + old(live);
      var p, o;
      ghost var h;
      p, o, h := Coalesce(page, order, b);
      FreeStep(free, live, h, pool);
      FreeBlock(p, o, h);
    }

    /** The inner loop of phys_free_range: the highest order that fits and is naturally aligned. */
    static method PickOrder(base: nat, pages: nat, i: nat) returns (order: nat)
      requires i < pages
      ensures order <= MAX_ORDER && i + Pow2(order) <= pages && (base + i) % Pow2(order) == 0
      ensures order == MAX_ORDER || i + Pow2(order + 1) > pages || (base + i) % Pow2(order + 1) != 0
    {
      order := MAX_ORDER;
      while order > 0
        invariant order <= MAX_ORDER
        invariant order == MAX_ORDER || i + Pow2(order + 1) > pages || (base + i) % Pow2(order + 1) != 0
      {
        AndLow(base + i, order);
        if i + Pow2(order) <= pages && And(base + i, Pow2(order) - 1) == 0 { return; }
        order := order - 1;
      }
    }

    /** phys_free_range: pages that were not in the pool join it, in one way only if they are all of it. */
    method FreeRange(base: nat, pages: nat)
      requires Valid() && 0 < base && forall x: nat | base <= x < base + pages :: x !in pool
      modifies this
      ensures Valid() && live == old(live) && pool == old(pool) + Range(base, base + pages)
      ensures old(pool) == {} ==> NoMerge(free)
    {
      ghost var end := base + pages;
      var i := 0;
      while i < pages
        invariant i <= pages && Valid() && live == old(live) && pool == old(pool) + Range(base, base + i)
        invariant old(pool) == {} ==> Greedy(free, end)
      {
        var order := PickOrder(base, pages, i);
        var page, next := base + i, i + Pow2(order);
        RangeSplit(old(pool), pool, base, page, base + next);
        SeedBlock(page, order, base + next, end);
        i := next;
      }
      if old(pool) == {} { GreedyNoMerge(free, live, pool, end); }
    }

    /** The call of phys_free_block in phys_free_range. */
    method SeedBlock(page: nat, order: nat, ghost hi: nat, ghost end: nat)
      requires Valid() && 0 < page && order <= MAX_ORDER && page % Pow2(order) == 0 && hi == page + Pow2(order)
      requires forall x: nat | page <= x < hi :: x !in pool
      requires order == MAX_ORDER || page + Pow2(order + 1) > end || page % Pow2(order + 1) != 0
      modifies this
      ensures Valid() && live == old(live) && pool == old(pool) + Range(page, hi)
      ensures Greedy(old(free), end) ==> Greedy(free, end)
    {
      ghost var b := At(page, order);
      BlockOfPage(page, order);
      SeedStep(free, live, pool, b, page, hi);
      InformedGrow(info, free, live, pool, Range(page, hi));
      GreedyAdd(free, end, b);
      pool := pool + Range(page, hi);
      FreeBlock(page, order, b);
    }
  }

  /** What is live determines what is free, whatever the history: two divisions of one pool with the same live pages and no
      mergeable buddies have the same free blocks. */
  lemma HistoryIndependent(f: set<Block>, live: set<Block>, g: set<Block>, held: set<Block>, pool: set<nat>)
    requires Tiled(f + live, pool) && f !! live && NoMerge(f) && Tiled(g + held, pool) && g !! held && NoMerge(g)
    requires forall x: nat :: InSome(live, x) <==> InSome(held, x)
    ensures f == g
  {
    forall x: nat ensures InSome(f, x) <==> InSome(g, x) {
      FreeIs(f, live, pool, x);
      FreeIs(g, held, pool, x);
    }
    SubApart(f, live);
    SubApart(g, held);
    Unique(f, g);
  }

  /** A page block is asked for, or the k-th of those held is given back. */
  datatype Request = Take(order: nat) | Give(k: nat)

  /** The blocks held, as page and order. */
  ghost predicate Holds(held: seq<(nat, nat)>, bs: seq<Block>, live: set<Block>)
  {
    && |held| == |bs| && (forall b :: b in live <==> b in bs)
    && (forall i, j | 0 <= i < j < |bs| :: bs[i] != bs[j])
    && forall i | 0 <= i < |bs| :: First(bs[i]) == held[i].0 && bs[i].order == held[i].1
  }

  lemma HoldsMore(held: seq<(nat, nat)>, bs: seq<Block>, live: set<Block>, b: Block)
    requires b !in live
    ensures Holds(held, bs, live) ==> Holds(held + [(First(b), b.order)], bs + [b], live + {b})
  {}

  lemma HoldsLess(held: seq<(nat, nat)>, bs: seq<Block>, live: set<Block>, k: nat)
    requires Holds(held, bs, live) && k < |bs|
    ensures bs[k] in live && Holds(held[..k] + held[k + 1..], bs[..k] + bs[k + 1..], live - {bs[k]})
  {
    var now := bs[..k] + bs[k + 1..];
    forall i | 0 <= i < |now| ensures now[i] == bs[if i < k then i else i + 1] {}
    forall b | b in bs && b != bs[k] ensures b in now {
      var i :| 0 <= i < |bs| && bs[i] == b;
      assert now[if i < k then i else i - 1] == b;
    }
  }

  /** One range is seeded, then any requests are served, and at last all that is still held is given back: the free blocks
      and the count are those of the seeded range. */
  method Session(base: nat, pages: nat, requests: seq<Request>) returns (m: PhysMemory, ghost seeded: set<Block>, ghost count: nat)
    requires base > 0
    ensures m.Valid() && m.pool == Range(base, base + pages) && m.live == {} && m.free == seeded && m.freePages == count == |m.pool|
    ensures NoMerge(seeded) && Tiled(seeded, m.pool)
  {
    m := new PhysMemory();
    m.FreeRange(base, pages);
    seeded, count := m.free, m.freePages;
    assert m.pool == Range(base, base + pages);
    assert seeded + m.live == seeded;
    Conserved(m);
    var held: seq<(nat, nat)> := [];
    ghost var bs: seq<Block> := [];
    var i := 0;
    while i < |requests|
      invariant 0 <= i <= |requests| && fresh(m) && m.Valid() && m.pool == Range(base, base + pages)
      invariant NoMerge(m.free) && Holds(held, bs, m.live)
    {
      held, bs := Serve(m, requests[i], held, bs);
      i := i + 1;
    }
    while |held| > 0
      invariant fresh(m) && m.Valid() && m.pool == Range(base, base + pages) && NoMerge(m.free) && Holds(held, bs, m.live)
      decreases |held|
    {
      held, bs := Return(m, |held| - 1, held, bs);
    }
    assert m.live == {};
    HistoryIndependent(seeded, {}, m.free, m.live, m.pool);
    Conserved(m);
  }

  method Serve(m: PhysMemory, r: Request, held: seq<(nat, nat)>, ghost bs: seq<Block>)
    returns (now: seq<(nat, nat)>, ghost cs: seq<Block>)
    requires m.Valid() && NoMerge(m.free) && Holds(held, bs, m.live)
    modifies m
    ensures m.Valid() && m.pool == old(m.pool) && NoMerge(m.free) && Holds(now, cs, m.live)
  {
    now, cs := held, bs;
    match r {
      case Take(order) =>
        ghost var live := m.live;
        var page, h := m.Alloc(order);
        if page != 0 {
          HoldsMore(held, bs, live, h);
          now, cs := held + [(page, order)], bs + [h];
        }
      case Give(k) =>
        if k < |held| { now, cs := Return(m, k, held, bs); }
    }
  }

  method Return(m: PhysMemory, k: nat, held: seq<(nat, nat)>, ghost bs: seq<Block>)
    returns (now: seq<(nat, nat)>, ghost cs: seq<Block>)
    requires m.Valid() && NoMerge(m.free) && Holds(held, bs, m.live) && k < |held|
    modifies m
    ensures m.Valid() && m.pool == old(m.pool) && NoMerge(m.free) && Holds(now, cs, m.live) && |now| == |held| - 1
  {
    HoldsLess(held, bs, m.live, k);
    m.Free(held[k].0, held[k].1, bs[k]);
    now, cs := held[..k] + held[k + 1..], bs[..k] + bs[k + 1..];
  }

  /** free_pages and the pages of the live blocks add up to the pool. */
  lemma Conserved(a: PhysMemory)
    requires a.Valid()
    ensures a.freePages + |Cover(a.live)| == |a.pool|
  {
    forall x: nat ensures x in a.pool <==> x in Cover(a.free) + Cover(a.live) {
      CoverIs(a.free, x);
      CoverIs(a.live, x);
      FreeIs(a.free, a.live, a.pool, x);
    }
    forall x: nat | x in Cover(a.free) ensures x !in Cover(a.live) {
      CoverIs(a.free, x);
      CoverIs(a.live, x);
      FreeIs(a.free, a.live, a.pool, x);
    }
    assert a.pool == Cover(a.free) + Cover(a.live);
  }
}
