/** Aligned power-of-two blocks of pages, and why a set of them that has no two mergeable buddies is determined
    by the pages it covers. */
module BuddyTiling {
  import opened Bits

  const MAX_ORDER := 18

  /** The 2^order pages whose numbers, shifted right by order, are index. */
  datatype Block = Block(index: nat, order: nat)

  /** The first page of a block. */
  function First(b: Block): nat
    decreases b.order
  {
    if b.order == 0 then b.index else First(Block(2 * b.index, b.order - 1))
  }

  ghost predicate Has(b: Block, x: nat) { Shift(x, b.order) == b.index }

  function Flip(k: nat): nat { if k % 2 == 0 then k + 1 else k - 1 }

  function Buddy(b: Block): Block { Block(Flip(b.index), b.order) }

  function Parent(b: Block): Block { Block(b.index / 2, b.order + 1) }

  function Lower(b: Block): Block
    requires b.order > 0
  {
    Block(2 * b.index, b.order - 1)
  }

  function Upper(b: Block): Block
    requires b.order > 0
  {
    Block(2 * b.index + 1, b.order - 1)
  }

  // ---------- shifts ----------

  lemma {:induction false} ShiftAdd(x: nat, m: nat, n: nat)
    ensures Shift(x, m + n) == Shift(Shift(x, m), n)
  {
    if m > 0 { ShiftAdd(x / 2, m - 1, n); }
  }

  lemma {:induction false} FirstDouble(k: nat, o: nat)
    ensures First(Block(2 * k, o)) == 2 * First(Block(k, o))
    decreases o
  {
    if o > 0 { FirstDouble(2 * k, o - 1); }
  }

  lemma {:induction false} FirstIs(b: Block)
    ensures First(b) == b.index * Pow2(b.order)
    decreases b.order
  {
    if b.order > 0 { FirstIs(Lower(b)); }
  }

  lemma {:induction false} ShiftFirst(k: nat, o: nat, j: nat)
    requires j <= o
    ensures Shift(First(Block(k, o)), j) == First(Block(k, o - j))
  {
    if j > 0 {
      FirstDouble(k, o - 1);
      ShiftFirst(k, o - 1, j - 1);
    }
  }

  lemma HasFirst(b: Block)
    ensures Has(b, First(b))
  {
    ShiftFirst(b.index, b.order, b.order);
  }

  /** The head of c, seen from a block of smaller order that holds it, is that block's head too. */
  lemma {:induction false} SameFirst(k: nat, o: nat, j: nat)
    requires j <= o
    ensures First(Block(First(Block(k, o - j)), j)) == First(Block(k, o))
  {
    if j > 0 {
      SameFirst(k, o - 1, j - 1);
      FirstDouble(k, o - j);
      FirstDouble(First(Block(k, o - j)), j - 1);
      FirstDouble(k, o - 1);
    }
  }

  lemma Nested(b: Block, c: Block, x: nat, y: nat)
    requires Has(b, x) && Has(c, x) && b.order <= c.order && Has(b, y)
    ensures Has(c, y)
  {
    ShiftAdd(x, b.order, c.order - b.order);
    ShiftAdd(y, b.order, c.order - b.order);
  }

  lemma Halves(b: Block, x: nat)
    requires b.order > 0
    ensures Has(b, x) <==> Has(Lower(b), x) || Has(Upper(b), x)
  {
    ShiftAdd(x, b.order - 1, 1);
    assert Shift(Shift(x, b.order - 1), 1) == Shift(x, b.order - 1) / 2;
  }

  // ---------- sets of blocks ----------

  ghost predicate InSome(bs: set<Block>, x: nat) { exists b | b in bs :: Has(b, x) }

  ghost predicate Apart(bs: set<Block>)
  {
    forall b, c, x: nat {:trigger Has(b, x), Has(c, x)} | b in bs && c in bs && Has(b, x) && Has(c, x) :: b == c
  }

  ghost predicate Orders(bs: set<Block>) { forall b | b in bs :: b.order <= MAX_ORDER }

  /** No two blocks could be coalesced. */
  ghost predicate NoMerge(bs: set<Block>) { forall b {:trigger Buddy(b)} | b in bs && b.order < MAX_ORDER :: Buddy(b) !in bs }

  /** bs tiles the pages of pool. */
  ghost predicate Tiled(bs: set<Block>, pool: set<nat>)
  {
    Orders(bs) && Apart(bs) && forall x: nat {:trigger InSome(bs, x)} :: x in pool <==> InSome(bs, x)
  }

  /** Blocks that cover all of r, all smaller than r, include two buddies. */
  lemma {:induction false} Mergeable(bs: set<Block>, r: Block)
    requires Apart(bs) && r.order <= MAX_ORDER && forall x: nat | Has(r, x) :: InSome(bs, x)
    requires forall b, x: nat | b in bs && Has(b, x) && Has(r, x) :: b.order < r.order
    ensures !NoMerge(bs)
    decreases r.order
  {
    HasFirst(r);
    var b :| b in bs && Has(b, First(r));
    var s := if Lower(r) in bs then Upper(r) else Lower(r);
    if s in bs {
      assert Buddy(Lower(r)) == s;
    } else {
      forall x: nat | Has(s, x) ensures InSome(bs, x) && Has(r, x) { Halves(r, x); }
      Mergeable(bs, s);
    }
  }

  /** A block of f lies in g, if both sets cover the same pages and neither has mergeable buddies. */
  lemma OneOf(f: set<Block>, g: set<Block>, b: Block)
    requires Apart(f) && Apart(g) && Orders(f) && Orders(g) && NoMerge(f) && NoMerge(g) && b in f
    requires forall x: nat :: InSome(f, x) <==> InSome(g, x)
    ensures b in g
  {
    var x := First(b);
    HasFirst(b);
    assert InSome(f, x);
    var c :| c in g && Has(c, x);
    if c.order > b.order {
      forall d, y: nat | d in f && Has(d, y) && Has(c, y) ensures d.order < c.order {
        if d.order >= c.order { Nested(c, d, y, x); }
      }
      forall y: nat | Has(c, y) ensures InSome(f, y) { assert InSome(g, y); }
      Mergeable(f, c);
    } else if c.order < b.order {
      forall d, y: nat | d in g && Has(d, y) && Has(b, y) ensures d.order < b.order {
        if d.order >= b.order { Nested(b, d, y, x); }
      }
      forall y: nat | Has(b, y) ensures InSome(g, y) { assert InSome(f, y); }
      Mergeable(g, b);
    }
  }

  /** The pages determine the blocks. */
  lemma Unique(f: set<Block>, g: set<Block>)
    requires Apart(f) && Apart(g) && Orders(f) && Orders(g) && NoMerge(f) && NoMerge(g)
    requires forall x: nat :: InSome(f, x) <==> InSome(g, x)
    ensures f == g
  {
    forall b | b in f ensures b in g { OneOf(f, g, b); }
    forall b | b in g ensures b in f { OneOf(g, f, b); }
  }

  lemma SplitTiled(bs: set<Block>, pool: set<nat>, b: Block)
    requires Tiled(bs, pool) && b in bs && b.order > 0
    ensures Tiled(bs - {b} + {Lower(b), Upper(b)}, pool)
  {
    var cs := bs - {b} + {Lower(b), Upper(b)};
    forall x: nat ensures InSome(bs, x) <==> InSome(cs, x) {
      Halves(b, x);
      if InSome(bs, x) {
        var c :| c in bs && Has(c, x);
        assert Lower(b) in cs && Upper(b) in cs;
        assert c in cs || c == b;
      }
      if InSome(cs, x) {
        var c :| c in cs && Has(c, x);
        assert c in bs || Has(b, x);
      }
    }
    forall c, d, x: nat | c in cs && d in cs && Has(c, x) && Has(d, x) ensures c == d { Halves(b, x); }
  }

  lemma MergeTiled(bs: set<Block>, pool: set<nat>, b: Block)
    requires Tiled(bs, pool) && b in bs && Buddy(b) in bs && b.order < MAX_ORDER
    ensures Tiled(bs - {b, Buddy(b)} + {Parent(b)}, pool)
  {
    var p := Parent(b);
    var cs := bs - {b, Buddy(b)} + {p};
    assert {Lower(p), Upper(p)} == {b, Buddy(b)};
    forall x: nat ensures InSome(bs, x) <==> InSome(cs, x) {
      Halves(p, x);
      if InSome(bs, x) {
        var c :| c in bs && Has(c, x);
        assert c in cs || p in cs;
      }
      if InSome(cs, x) {
        var c :| c in cs && Has(c, x);
        assert c in bs || Has(b, x) || Has(Buddy(b), x);
      }
    }
    forall c, d, x: nat | c in cs && d in cs && Has(c, x) && Has(d, x) ensures c == d { Halves(p, x); }
  }

  // ---------- sizes ----------

  ghost function Pages(b: Block): set<nat>
    decreases b.order
  {
    if b.order == 0 then {b.index} else Pages(Lower(b)) + Pages(Upper(b))
  }

  lemma {:induction false} PagesOf(b: Block)
    ensures forall x: nat :: x in Pages(b) <==> Has(b, x)
    ensures |Pages(b)| == Pow2(b.order)
    decreases b.order
  {
    if b.order > 0 {
      PagesOf(Lower(b));
      PagesOf(Upper(b));
      forall x: nat ensures x in Pages(b) <==> Has(b, x) { Halves(b, x); }
      assert Pages(Lower(b)) !! Pages(Upper(b));
    }
  }

  ghost function Cover(bs: set<Block>): set<nat> { set b, x | b in bs && x in Pages(b) :: x }

  lemma CoverIs(bs: set<Block>, x: nat)
    ensures x in Cover(bs) <==> InSome(bs, x)
  {
    forall b | b in bs ensures x in Pages(b) <==> Has(b, x) { PagesOf(b); }
  }

  lemma CoverAdd(bs: set<Block>, b: Block)
    requires b !in bs && Apart(bs + {b})
    ensures |Cover(bs + {b})| == |Cover(bs)| + Pow2(b.order)
  {
    PagesOf(b);
    forall x: nat | x in Cover(bs) ensures x !in Pages(b) {
      CoverIs(bs, x);
      var c :| c in bs && Has(c, x);
    }
    assert Cover(bs + {b}) == Cover(bs) + Pages(b);
  }

  // ---------- ranges ----------

  lemma {:induction false} BlockOfPage(p: nat, o: nat)
    requires p % Pow2(o) == 0
    ensures First(Block(Shift(p, o), o)) == p
  {
    if o > 0 {
      var q := p / Pow2(o);
      assert p == 2 * (Pow2(o - 1) * q);
      DivMod(p / 2, Pow2(o - 1), q, 0);
      BlockOfPage(p / 2, o - 1);
      FirstDouble(Shift(p, o), o - 1);
    }
  }

  lemma {:induction false} FirstNext(k: nat, o: nat)
    ensures First(Block(k + 1, o)) == First(Block(k, o)) + Pow2(o)
    decreases o
  {
    if o > 0 {
      FirstNext(2 * k, o - 1);
      FirstNext(2 * k + 1, o - 1);
    }
  }

  lemma {:induction false} HasRange(b: Block, x: nat)
    ensures Has(b, x) <==> First(b) <= x < First(b) + Pow2(b.order)
    decreases b.order
  {
    if b.order > 0 {
      Halves(b, x);
      HasRange(Lower(b), x);
      HasRange(Upper(b), x);
      FirstNext(2 * b.index, b.order - 1);
    }
  }

  /** Flipping bit o of the first page of a block of order o gives the first page of its buddy. */
  lemma {:induction false} XorFirst(k: nat, o: nat)
    ensures Xor(First(Block(k, o)), Pow2(o)) == First(Block(Flip(k), o))
    decreases o
  {
    if o == 0 {
      XorZero(k / 2);
    } else {
      XorFirst(k, o - 1);
      FirstDouble(k, o - 1);
      FirstDouble(Flip(k), o - 1);
    }
  }

  /** Two blocks that share a page, neither the larger of which is b, where c holds the head of b's buddy. */
  lemma BuddyHead(bs: set<Block>, b: Block, c: Block)
    requires Apart(bs) && b in bs && c in bs && Has(c, First(Buddy(b)))
    ensures c != b && First(c) == First(Buddy(b)) && c.order <= b.order
  {
    var u := Buddy(b);
    HasFirst(b);
    HasFirst(u);
    if c.order > b.order {
      Halves(Parent(b), First(u));
      Halves(Parent(b), First(b));
      Nested(Parent(b), c, First(u), First(b));
    } else {
      ShiftFirst(u.index, u.order, c.order);
      SameFirst(u.index, u.order, c.order);
    }
  }
}
