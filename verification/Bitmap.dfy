/** The allocation bitmaps of kernel/vfs/ffs.c. */
module Bitmap {
  import opened Bits

  // ---------- single bits ----------

  lemma {:induction false} OrBit(x: nat, i: nat, j: nat)
    ensures BitOf(Or(x, Pow2(i)), j) <==> j == i || BitOf(x, j)
  {
    if i == 0 {
      OrZero(x / 2);
    } else if j > 0 {
      OrBit(x / 2, i - 1, j - 1);
    }
  }

  lemma {:induction false} OrBelow(x: nat, i: nat, n: nat)
    requires x < Pow2(n) && i < n
    ensures Or(x, Pow2(i)) < Pow2(n)
  {
    assert Pow2(n) == 2 * Pow2(n - 1);
    if i == 0 {
      OrZero(x / 2);
    } else {
      assert Pow2(i) / 2 == Pow2(i - 1);
      OrBelow(x / 2, i - 1, n - 1);
    }
    assert Or(x, Pow2(i)) <= 2 * Or(x / 2, Pow2(i) / 2) + 1;
  }

  lemma {:induction false} AndBit(x: nat, i: nat)
    ensures And(x, Pow2(i)) != 0 <==> BitOf(x, i)
  {
    if i == 0 { AndOne(x); } else { AndBit(x / 2, i - 1); }
  }

  /** x & ~(1 << i) in an n-bit word. */
  lemma {:induction false} AndNotBit(x: nat, i: nat, n: nat, j: nat)
    requires x < Pow2(n) && i < n
    ensures Pow2(n) - 1 >= Pow2(i) && And(x, Pow2(n) - 1 - Pow2(i)) <= x
    ensures BitOf(And(x, Pow2(n) - 1 - Pow2(i)), j) <==> j != i && BitOf(x, j)
  {
    if i == 0 {
      AndMask(x / 2, n - 1);
      assert (Pow2(n) - 2) / 2 == Pow2(n - 1) - 1;
    } else {
      AndNotBit(x / 2, i - 1, n - 1, if j > 0 then j - 1 else 0);
      assert (Pow2(n) - 1 - Pow2(i)) / 2 == Pow2(n - 1) - 1 - Pow2(i - 1);
    }
  }

  lemma {:induction false} OnesBit(n: nat, i: nat)
    requires i < n
    ensures BitOf(Pow2(n) - 1, i)
  {
    if i > 0 { OnesBit(n - 1, i - 1); }
  }

  lemma {:induction false} OnesOnly(x: nat, n: nat)
    requires x < Pow2(n) && forall i: nat | i < n :: BitOf(x, i)
    ensures x == Pow2(n) - 1
  {
    if n > 0 {
      forall i: nat | i < n - 1 ensures BitOf(x / 2, i) { assert BitOf(x, i + 1); }
      OnesOnly(x / 2, n - 1);
      assert BitOf(x, 0);
    }
  }

  // ---------- the map ----------

  predicate Bit(m: seq<byte>, x: nat)
    requires x < 8 * |m|
  {
    BitOf(m[x / 8], x % 8)
  }

  /** m is now with the bits of s changed to v. */
  ghost predicate Marked(m: seq<byte>, now: seq<byte>, s: set<nat>, v: bool)
  {
    |now| == |m| && forall x: nat | x < 8 * |m| :: Bit(now, x) <==> if x in s then v else Bit(m, x)
  }

  lemma SetOne(m: seq<byte>, x: nat)
    requires x < 8 * |m|
    ensures Or(m[x / 8], Pow2(x % 8)) < 256 && Marked(m, m[x / 8 := Or(m[x / 8], Pow2(x % 8))], {x}, true)
  {
    var b, i := m[x / 8], x % 8;
    Pow2Values();
    OrBelow(b, i, 8);
    var now: seq<byte> := m[x / 8 := Or(b, Pow2(i))];
    forall y: nat | y < 8 * |m| ensures Bit(now, y) <==> y == x || Bit(m, y) {
      if y / 8 == x / 8 { OrBit(b, i, y % 8); }
    }
  }

  lemma ClearOne(m: seq<byte>, x: nat)
    requires x < 8 * |m|
    ensures Pow2(x % 8) <= 255
    ensures And(m[x / 8], 255 - Pow2(x % 8)) < 256 && Marked(m, m[x / 8 := And(m[x / 8], 255 - Pow2(x % 8))], {x}, false)
  {
    var b, i := m[x / 8], x % 8;
    Pow2Values();
    AndNotBit(b, i, 8, 0);
    var now: seq<byte> := m[x / 8 := And(b, 255 - Pow2(i))];
    forall y: nat | y < 8 * |m| ensures Bit(now, y) <==> y != x && Bit(m, y) {
      if y / 8 == x / 8 { AndNotBit(b, i, 8, y % 8); }
    }
  }

  /** A byte other than 0xFF has a clear bit; 0xFF has none. */
  lemma Full(m: seq<byte>, b: nat)
    requires b < |m|
    ensures m[b] == 255 <==> forall x: nat | 8 * b <= x < 8 * b + 8 :: Bit(m, x)
  {
    Pow2Values();
    if m[b] == 255 {
      forall x: nat | 8 * b <= x < 8 * b + 8 ensures Bit(m, x) { OnesBit(8, x % 8); }
    } else if forall x: nat | 8 * b <= x < 8 * b + 8 :: Bit(m, x) {
      forall i: nat | i < 8 ensures BitOf(m[b], i) { assert Bit(m, 8 * b + i); }
      OnesOnly(m[b], 8);
    }
  }

  /** The search of bmap_alloc: the first clear bit after bit 0, or 0. */
  method FirstClear(bmap: array<byte>) returns (idx: nat)
    requires bmap.Length > 0 && Bit(bmap[..], 0)
    ensures idx < 8 * bmap.Length && (idx != 0 ==> !Bit(bmap[..], idx))
    ensures forall x: nat | 0 < x < (if idx == 0 then 8 * bmap.Length else idx) :: Bit(bmap[..], x)
  {
    ghost var m := bmap[..];
    var b := 0;
    while b < bmap.Length
      invariant 0 <= b <= bmap.Length && forall x: nat | x < 8 * b :: Bit(m, x)
    {
      Full(m, b);
      if bmap[b] != 255 {
        var i := 0;
        while i < 8
          invariant 0 <= i <= 8 && forall x: nat | x < 8 * b + i :: Bit(m, x)
        {
          idx := b * 8 + i;
          AndBit(bmap[b], i);
          if idx != 0 && And(bmap[b], Pow2(i)) == 0 { return; }
          i := i + 1;
        }
      }
      b := b + 1;
    }
    idx := 0;
  }

  /** bmap_alloc: bit 0 is set; then the first clear bit is set and returned, or 0 if there is none. */
  method Alloc(bmap: array<byte>) returns (idx: nat)
    requires bmap.Length > 0
    modifies bmap
    ensures idx < 8 * bmap.Length && (idx != 0 ==> !Bit(old(bmap[..]), idx))
    ensures forall x: nat | 0 < x < (if idx == 0 then 8 * bmap.Length else idx) :: Bit(old(bmap[..]), x)
    ensures Marked(old(bmap[..]), bmap[..], {0, idx}, true)
  {
    ghost var m := bmap[..];
    SetFirst(m);
    bmap[0] := Or(bmap[0], 1);
    assert bmap[..] == m[0 := Or(m[0], 1)];
    idx := FirstClear(bmap);
    forall x: nat | 0 < x < (if idx == 0 then 8 * bmap.Length else idx) ensures Bit(m, x) { assert Bit(bmap[..], x); }
    if idx != 0 {
      SetOne(bmap[..], idx);
      bmap[idx / 8] := Or(bmap[idx / 8], Pow2(idx % 8));
    }
  }

  lemma SetFirst(m: seq<byte>)
    requires |m| > 0
    ensures Or(m[0], 1) < 256 && Marked(m, m[0 := Or(m[0], 1)], {0}, true)
  {
    SetOne(m, 0);
  }

  /** bmap_free */
  method Free(bmap: array<byte>, idx: nat)
    requires idx < 8 * bmap.Length
    modifies bmap
    ensures Marked(old(bmap[..]), bmap[..], {idx}, false)
  {
    ClearOne(bmap[..], idx);
    bmap[idx / 8] := And(bmap[idx / 8], 255 - Pow2(idx % 8));
  }
}
