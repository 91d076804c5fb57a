/** poly1305_mac of kernel/net/tls.c: three limbs of 44, 44 and 42 bits, every 64-bit and 128-bit intermediate typed. */
module Poly1305 {
  import opened Bits
  import opened Rfc8439

  type uint64 = x: int | 0 <= x < 0x1_0000_0000_0000_0000
  type uint128 = x: int | 0 <= x < 0x1_0000_0000_0000_0000_0000_0000_0000_0000

  datatype Limbs = Limbs(h0: nat, h1: nat, h2: nat)

  ghost function Value(h: Limbs): nat { h.h0 + 0x1000_0000_0000 * h.h1 + 0x100_0000_0000_0000_0000_0000 * h.h2 }

  /** Limbs at the head of the loop, of a clamped key, and of a message block. */
  ghost predicate Carried(h: Limbs) { h.h0 < 0x1000_0000_0000 && h.h1 < 0x1000_0000_0400 && h.h2 < 0x400_0000_0000 }
  ghost predicate Key(r: Limbs) { r.h0 < 0x1000_0000_0000 && r.h1 < 0x1000_0000_0000 && r.h2 < 0x10_0000_0000 }
  ghost predicate Message(m: Limbs) { m.h0 < 0x1000_0000_0000 && m.h1 < 0x1000_0000_0000 && m.h2 < 0x200_0000_0000 }

  // ---------- one block ----------

  /** The three columns of (h + m) * r with 2^132 folded to 20. */
  ghost function D0(a: Limbs, r: Limbs): nat { a.h0 * r.h0 + a.h1 * (r.h2 * 20) + a.h2 * (r.h1 * 20) }
  ghost function D1(a: Limbs, r: Limbs): nat { a.h0 * r.h1 + a.h1 * r.h0 + a.h2 * (r.h2 * 20) }
  ghost function D2(a: Limbs, r: Limbs): nat { a.h0 * r.h2 + a.h1 * r.h1 + a.h2 * r.h0 }

  lemma Scale(h: nat, r: Limbs)
    ensures h * Value(r) == h * r.h0 + 0x1000_0000_0000 * (h * r.h1) + 0x100_0000_0000_0000_0000_0000 * (h * r.h2)
  {
    var x, y, z := r.h0, 0x1000_0000_0000 * r.h1, 0x100_0000_0000_0000_0000_0000 * r.h2;
    assert h * (x + y + z) == h * x + h * y + h * z;
    assert h * y == 0x1000_0000_0000 * (h * r.h1);
    assert h * z == 0x100_0000_0000_0000_0000_0000 * (h * r.h2);
  }

  lemma Times20(a: nat, b: nat)
    ensures a * (b * 20) == 20 * (a * b)
  {}

  ghost function Folds(a: Limbs, r: Limbs): nat { 4 * (a.h1 * r.h2 + a.h2 * r.h1) + 0x4000_0000_0000 * (a.h2 * r.h2) }

  /** The product, less a multiple of 2^130 - 5. */
  lemma Product(a: Limbs, r: Limbs)
    ensures Value(a) * Value(r) == Value(Limbs(D0(a, r), D1(a, r), D2(a, r))) + 0x3fffffffffffffffffffffffffffffffb * Folds(a, r)
  {
    var v := Value(r);
    Scale3(a, v);
    Scale(a.h0, r);
    Scale(a.h1, r);
    Scale(a.h2, r);
    Times20(a.h1, r.h2);
    Times20(a.h2, r.h1);
    Times20(a.h2, r.h2);
  }

  lemma Scale3(a: Limbs, v: nat)
    ensures Value(a) * v == a.h0 * v + 0x1000_0000_0000 * (a.h1 * v) + 0x100_0000_0000_0000_0000_0000 * (a.h2 * v)
  {
    var y, z := 0x1000_0000_0000 * a.h1, 0x100_0000_0000_0000_0000_0000 * a.h2;
    assert (a.h0 + y + z) * v == a.h0 * v + y * v + z * v;
    assert y * v == 0x1000_0000_0000 * (a.h1 * v);
    assert z * v == 0x100_0000_0000_0000_0000_0000 * (a.h2 * v);
  }

  /** Congruence modulo 2^130 - 5. */
  lemma Congruent(x: nat, y: nat, k: int)
    requires x == y + 0x3fffffffffffffffffffffffffffffffb * k
    ensures x % P == y % P
  {
    var q, r := y / P, y % P;
    DivMod(x, P, q + k, r);
  }

  /** The carries out of the three limbs. */
  ghost function C0(d: Limbs): nat { d.h0 / 0x1000_0000_0000 }
  ghost function C1(d: Limbs): nat { (d.h1 + C0(d)) / 0x1000_0000_0000 }
  ghost function C2(d: Limbs): nat { (d.h2 + C1(d)) / 0x400_0000_0000 }
  ghost function F0(d: Limbs): nat { d.h0 % 0x1000_0000_0000 + C2(d) * 5 }

  ghost function Propagate(d: Limbs): Limbs
  {
    Limbs(F0(d) % 0x1000_0000_0000, (d.h1 + C0(d)) % 0x1000_0000_0000 + F0(d) / 0x1000_0000_0000, (d.h2 + C1(d)) % 0x400_0000_0000)
  }

  lemma CarrySum(d: Limbs, c0: nat, l0: nat, c1: nat, l1: nat, c2: nat, l2: nat, c3: nat, l3: nat)
    requires d.h0 == 0x1000_0000_0000 * c0 + l0 && d.h1 + c0 == 0x1000_0000_0000 * c1 + l1 && d.h2 + c1 == 0x400_0000_0000 * c2 + l2
    requires l0 + c2 * 5 == 0x1000_0000_0000 * c3 + l3
    ensures Value(d) == Value(Limbs(l3, l1 + c3, l2)) + 0x3fffffffffffffffffffffffffffffffb * c2
  {}

  lemma PropagateValue(d: Limbs)
    ensures Value(Propagate(d)) % P == Value(d) % P
  {
    CarrySum(d, C0(d), d.h0 % 0x1000_0000_0000, C1(d), (d.h1 + C0(d)) % 0x1000_0000_0000, C2(d), (d.h2 + C1(d)) % 0x400_0000_0000,
             F0(d) / 0x1000_0000_0000, F0(d) % 0x1000_0000_0000);
    Congruent(Value(d), Value(Propagate(d)), C2(d));
  }

  lemma PropagateBounds(d: Limbs)
    requires d.h0 < 0x2000_0000_0000_0000_0000_0000 && d.h1 < 0x800_0000_0000_0000_0000_0000
    requires d.h2 < 0x800_0000_0000_0000_0000_0000
    ensures Carried(Propagate(d)) && C0(d) < 0x2_0000_0000_0000 && C1(d) < 0x1_0000_0000_0000 && C2(d) < 0x4_0000_0000_0000
    ensures F0(d) < 0x20_0000_0000_0000
  {
    assert C0(d) < 0x2_0000_0000_0000;
    assert C1(d) < 0x1_0000_0000_0000;
    assert C2(d) < 0x4_0000_0000_0000;
  }

  ghost function Sum(h: Limbs, m: Limbs): Limbs { Limbs(h.h0 + m.h0, h.h1 + m.h1, h.h2 + m.h2) }

  /** One turn of the loop on limbs. */
  ghost function Round(h: Limbs, r: Limbs, m: Limbs): Limbs
  {
    var a := Sum(h, m);
    Propagate(Limbs(D0(a, r), D1(a, r), D2(a, r)))
  }

  lemma Bound(x: nat, y: nat, a: nat, b: nat)
    requires x <= a && y <= b
    ensures x * y <= a * b
  {
    assert x * y <= a * y;
    assert a * y <= a * b;
  }

  /** No 128-bit sum and no 64-bit carry overflows. */
  lemma ColumnBounds(a: Limbs, r: Limbs)
    requires a.h0 <= 0x2000_0000_0000 && a.h1 <= 0x4000_0000_0000 && a.h2 <= 0x800_0000_0000 && Key(r)
    ensures D0(a, r) < 0x2000_0000_0000_0000_0000_0000 && D1(a, r) < 0x800_0000_0000_0000_0000_0000
    ensures D2(a, r) < 0x800_0000_0000_0000_0000_0000
  {
    Bound(a.h0, r.h0, 0x2000_0000_0000, 0x1000_0000_0000);
    Bound(a.h1, r.h2 * 20, 0x4000_0000_0000, 0x200_0000_0000);
    Bound(a.h2, r.h1 * 20, 0x800_0000_0000, 0x2_0000_0000_0000);
    Bound(a.h0, r.h1, 0x2000_0000_0000, 0x1000_0000_0000);
    Bound(a.h1, r.h0, 0x4000_0000_0000, 0x1000_0000_0000);
    Bound(a.h2, r.h2 * 20, 0x800_0000_0000, 0x200_0000_0000);
    Bound(a.h0, r.h2, 0x2000_0000_0000, 0x10_0000_0000);
    Bound(a.h1, r.h1, 0x4000_0000_0000, 0x1000_0000_0000);
    Bound(a.h2, r.h0, 0x800_0000_0000, 0x1000_0000_0000);
  }

  lemma {:induction false} RoundIs(h: Limbs, r: Limbs, m: Limbs)
    requires Carried(h) && Key(r) && Message(m)
    ensures Carried(Round(h, r, m)) && Value(Round(h, r, m)) % P == Step(Value(h), Value(m), Value(r))
  {
    var a := Sum(h, m);
    var d := Limbs(D0(a, r), D1(a, r), D2(a, r));
    ColumnBounds(a, r);
    PropagateBounds(d);
    PropagateValue(d);
    Product(a, r);
    Congruent(Value(a) * Value(r), Value(Limbs(D0(a, r), D1(a, r), D2(a, r))), Folds(a, r));
    SumStep(Value(a), Value(h), Value(m), Value(r));
  }

  lemma SumStep(a: nat, h: nat, m: nat, r: nat)
    requires a == h + m
    ensures a * r % P == Step(h, m, r)
  {}

  // ---------- loading ----------

  lemma Powers()
    ensures Pow2(20) == 0x10_0000 && Pow2(24) == 0x100_0000 && Pow2(40) == 0x100_0000_0000 && Pow2(42) == 0x400_0000_0000
    ensures Pow2(44) == 0x1000_0000_0000 && Pow2(64) == 0x1_0000_0000_0000_0000
  {
    assert Pow2(4) == 16 && Pow2(2) == 4;
    Pow2Add(4, 4);
    Pow2Add(8, 8);
    Pow2Add(16, 4);
    Pow2Add(20, 4);
    Pow2Add(20, 20);
    Pow2Add(40, 2);
    Pow2Add(40, 4);
    Pow2Add(20, 44);
  }

  /** Eight bytes as a little-endian word: the bytes are shifted to disjoint places and or-ed. */
  function Load64(s: seq<byte>, i: nat): uint64
    requires i + 8 <= |s|
  {
    var b0: nat, b1: nat, b2: nat, b3: nat := s[i], s[i + 1], s[i + 2], s[i + 3];
    var b4: nat, b5: nat, b6: nat, b7: nat := s[i + 4], s[i + 5], s[i + 6], s[i + 7];
    b0 + 0x100 * b1 + 0x1_0000 * b2 + 0x100_0000 * b3 + 0x1_0000_0000 * b4 + 0x100_0000_0000 * b5
    + 0x1_0000_0000_0000 * b6 + 0x100_0000_0000_0000 * b7
  }

  lemma DecodeStep(s: seq<byte>, b: nat, t: seq<byte>)
    requires s != [] && b == s[0] && t == s[1..]
    ensures Decode(s) == b + 256 * Decode(t)
  {}

  lemma LoadIs(s: seq<byte>)
    requires |s| >= 8
    ensures Decode(s) == Load64(s, 0) + 0x1_0000_0000_0000_0000 * Decode(s[8..])
  {
    DecodeStep(s, s[0], s[1..]);
    DecodeStep(s[1..], s[1], s[2..]);
    DecodeStep(s[2..], s[2], s[3..]);
    DecodeStep(s[3..], s[3], s[4..]);
    DecodeStep(s[4..], s[4], s[5..]);
    DecodeStep(s[5..], s[5], s[6..]);
    DecodeStep(s[6..], s[6], s[7..]);
    DecodeStep(s[7..], s[7], s[8..]);
  }

  /** The middle limb of two words: the top 20 bits of the one and the low 24 of the other. */
  function Middle(x: uint64, y: uint64): nat { Or(x / 0x1000_0000_0000, y * 0x10_0000 % 0x1_0000_0000_0000_0000) }

  lemma MiddleIs(x: uint64, y: uint64)
    ensures Middle(x, y) == x / 0x1000_0000_0000 + 0x10_0000 * (y % 0x1000_0000_0000)
  {
    Powers();
    OrJoin(x / 0x1000_0000_0000, y % 0x1000_0000_0000, 20);
    MulMod(y);
  }

  lemma MulMod(y: nat)
    ensures y * 0x10_0000 % 0x1_0000_0000_0000_0000 == 0x10_0000 * (y % 0x1000_0000_0000)
  {
    DivMod(y * 0x10_0000, 0x1_0000_0000_0000_0000, y / 0x1000_0000_0000, 0x10_0000 * (y % 0x1000_0000_0000));
  }

  /** Two words and a bit as limbs of 44, 44 and 42 bits. */
  function Split(x: uint64, y: uint64, top: byte): Limbs
  {
    Limbs(And(x, 0xfff_ffff_ffff), And(Middle(x, y), 0xfff_ffff_ffff), Or(y / 0x100_0000, 0x100_0000_0000 * top as int))
  }

  lemma SplitLimbs(x: uint64, y: uint64, top: byte)
    ensures Split(x, y, top) == Limbs(x % 0x1000_0000_0000, x / 0x1000_0000_0000 + 0x10_0000 * (y % 0x100_0000),
                                      y / 0x100_0000 + 0x100_0000_0000 * top as int)
  {
    Powers();
    AndLow(x, 44);
    MiddleIs(x, y);
    AndLow(Middle(x, y), 44);
    SplitSum(x, y, Middle(x, y) % 0x1000_0000_0000);
    OrJoin(y / 0x100_0000, top, 40);
  }

  lemma SplitIs(x: uint64, y: uint64, top: byte)
    requires top <= 1
    ensures Value(Split(x, y, top)) == x + 0x1_0000_0000_0000_0000 * y + 0x1_0000_0000_0000_0000_0000_0000_0000_0000 * top as int
    ensures Message(Split(x, y, top))
  {
    SplitLimbs(x, y, top);
  }

  lemma SplitSum(x: uint64, y: uint64, m: nat)
    requires m == (x / 0x1000_0000_0000 + 0x10_0000 * (y % 0x1000_0000_0000)) % 0x1000_0000_0000
    ensures m == x / 0x1000_0000_0000 + 0x10_0000 * (y % 0x100_0000)
  {
    var h, w := x / 0x1000_0000_0000, y % 0x1000_0000_0000;
    assert y % 0x100_0000 == w % 0x100_0000;
    DivMod(h + 0x10_0000 * w, 0x1000_0000_0000, w / 0x100_0000, h + 0x10_0000 * (w % 0x100_0000));
  }

  lemma {:induction false} AndBelow(x: nat, m: nat)
    ensures And(x, m) <= m
  {
    if x > 0 || m > 0 { AndBelow(x / 2, m / 2); }
  }

  lemma AndCut(x: nat, y: nat, m: nat)
    requires x < 0x1000_0000_0000 && m < 0x1000_0000_0000
    ensures And(x + 0x1000_0000_0000 * y, m) == And(x, m)
  {
    Powers();
    AndJoin(x, y, m, 0, 44);
    AndZero(y);
  }

  /** The clamped key: masks on the words, limb by limb. */
  function Clamped(x: uint64, y: uint64): Limbs
  {
    Limbs(And(x, 0xffc_0fff_ffff), And(Middle(x, y), 0xfff_ffc0_ffff), And(y / 0x100_0000, 0xf_ffff_fc0f))
  }

  lemma LowClamp(x: uint64, m: nat)
    requires m < 0x1000_0000_0000
    ensures And(x, m) == And(x % 0x1000_0000_0000, m)
  {
    AndCut(x % 0x1000_0000_0000, x / 0x1000_0000_0000, m);
  }

  lemma MiddleClamp(x: uint64, y: uint64, m: nat)
    requires m < 0x1000_0000_0000
    ensures And(Middle(x, y), m) == And(x / 0x1000_0000_0000 + 0x10_0000 * (y % 0x100_0000), m)
  {
    MiddleIs(x, y);
    LowBits(y);
    var w := y % 0x1000_0000_0000;
    CutAt(x / 0x1000_0000_0000, w / 0x100_0000, y % 0x100_0000, w, m);
  }

  lemma CutAt(h: nat, u: nat, v: nat, w: nat, m: nat)
    requires h < 0x10_0000 && w == 0x100_0000 * u + v && v < 0x100_0000 && m < 0x1000_0000_0000
    ensures And(h + 0x10_0000 * w, m) == And(h + 0x10_0000 * v, m)
  {
    AndCut(h + 0x10_0000 * v, u, m);
    assert h + 0x10_0000 * w == h + 0x10_0000 * v + 0x1000_0000_0000 * u;
  }

  lemma LowBits(y: nat)
    ensures y % 0x1000_0000_0000 % 0x100_0000 == y % 0x100_0000
  {
    var q, r := y / 0x1000_0000_0000, y % 0x1000_0000_0000;
    DivMod(y, 0x100_0000, 0x10_0000 * q + r / 0x100_0000, r % 0x100_0000);
  }

  lemma ClampedLimbs(x: uint64, y: uint64)
    ensures Clamped(x, y) == Limbs(And(x % 0x1000_0000_0000, 0xffc_0fff_ffff),
                                   And(x / 0x1000_0000_0000 + 0x10_0000 * (y % 0x100_0000), 0xfff_ffc0_ffff),
                                   And(y / 0x100_0000, 0xf_ffff_fc0f))
    ensures Key(Clamped(x, y))
  {
    LowClamp(x, 0xffc_0fff_ffff);
    MiddleClamp(x, y, 0xfff_ffc0_ffff);
    AndBelow(x, 0xffc_0fff_ffff);
    AndBelow(Middle(x, y), 0xfff_ffc0_ffff);
    AndBelow(y / 0x100_0000, 0xf_ffff_fc0f);
  }

  lemma And44(x: nat, y: nat, m: nat, n: nat)
    requires x < 0x1000_0000_0000 && m < 0x1000_0000_0000
    ensures And(x + 0x1000_0000_0000 * y, m + 0x1000_0000_0000 * n) == And(x, m) + 0x1000_0000_0000 * And(y, n)
  {
    Powers();
    AndJoin(x, y, m, n, 44);
  }

  lemma AndThree(x0: nat, x1: nat, x2: nat, m0: nat, m1: nat, m2: nat, u: nat, v: nat)
    requires x0 < 0x1000_0000_0000 && x1 < 0x1000_0000_0000 && m0 < 0x1000_0000_0000 && m1 < 0x1000_0000_0000
    requires u == x1 + 0x1000_0000_0000 * x2 && v == m1 + 0x1000_0000_0000 * m2
    ensures And(x0 + 0x1000_0000_0000 * u, m0 + 0x1000_0000_0000 * v)
         == And(x0, m0) + 0x1000_0000_0000 * (And(x1, m1) + 0x1000_0000_0000 * And(x2, m2))
  {
    And44(x0, u, m0, v);
    And44(x1, x2, m1, m2);
  }

  lemma WordsAsLimbs(x: uint64, y: uint64)
    ensures x + 0x1_0000_0000_0000_0000 * y as int
         == x % 0x1000_0000_0000 + 0x1000_0000_0000 * (x / 0x1000_0000_0000 + 0x10_0000 * (y % 0x100_0000) + 0x1000_0000_0000 * (y / 0x100_0000))
    ensures x / 0x1000_0000_0000 + 0x10_0000 * (y % 0x100_0000) < 0x1000_0000_0000
  {}

  lemma ClampThree(x0: nat, x1: nat, x2: nat, u: nat, w: nat)
    requires x0 < 0x1000_0000_0000 && x1 < 0x1000_0000_0000 && u == x1 + 0x1000_0000_0000 * x2 && w == x0 + 0x1000_0000_0000 * u
    ensures And(w, CLAMP) == Value(Limbs(And(x0, 0xffc_0fff_ffff), And(x1, 0xfff_ffc0_ffff), And(x2, 0xf_ffff_fc0f)))
  {
    AndThree(x0, x1, x2, 0xffc_0fff_ffff, 0xfff_ffc0_ffff, 0xf_ffff_fc0f, u, 0xffff_ffc0_ffff_ffc0_ffff);
  }

  lemma ClampWords(x: uint64, y: uint64)
    ensures And(x + 0x1_0000_0000_0000_0000 * y as int, CLAMP)
         == Value(Limbs(And(x % 0x1000_0000_0000, 0xffc_0fff_ffff),
                        And(x / 0x1000_0000_0000 + 0x10_0000 * (y % 0x100_0000), 0xfff_ffc0_ffff),
                        And(y / 0x100_0000, 0xf_ffff_fc0f)))
  {
    WordsAsLimbs(x, y);
    ClampThree(x % 0x1000_0000_0000, x / 0x1000_0000_0000 + 0x10_0000 * (y % 0x100_0000), y / 0x100_0000,
               x / 0x1000_0000_0000 + 0x10_0000 * (y % 0x100_0000) + 0x1000_0000_0000 * (y / 0x100_0000),
               x + 0x1_0000_0000_0000_0000 * y as int);
  }

  /** It is what masking the whole number gives. */
  lemma ClampedIs(x: uint64, y: uint64)
    ensures Value(Clamped(x, y)) == And(x + 0x1_0000_0000_0000_0000 * y as int, CLAMP) && Key(Clamped(x, y))
  {
    ClampWords(x, y);
    ClampedLimbs(x, y);
  }

  // ---------- blocks ----------

  /** blk: the block, a one, and zeros up to 17 bytes. */
  function Padded(msg: seq<byte>): (blk: seq<byte>)
    ensures |blk| == 17 && blk[16] <= 1
  {
    if |msg| < 16 then msg + [1] + seq(16 - |msg|, _ => 0) else msg[..16] + [1]
  }

  lemma {:induction false} DecodeZeros(s: seq<byte>, z: seq<byte>)
    requires forall i | 0 <= i < |z| :: z[i] == 0
    ensures Decode(s + z) == Decode(s)
  {
    if s == [] {
      assert s + z == z;
      if z != [] {
        DecodeZeros([], z[1..]);
        assert [] + z[1..] == z[1..];
      }
    } else {
      DecodeZeros(s[1..], z);
      assert (s + z)[1..] == s[1..] + z;
    }
  }

  lemma PaddedIs(msg: seq<byte>)
    ensures Decode(Padded(msg)) == Block(msg)
    ensures var blk := Padded(msg);
            Decode(blk) == Load64(blk, 0) + 0x1_0000_0000_0000_0000 * Load64(blk, 8) + 0x1_0000_0000_0000_0000_0000_0000_0000_0000 * blk[16] as int
  {
    var blk := Padded(msg);
    if |msg| < 16 { DecodeZeros(msg + [1], seq(16 - |msg|, _ => 0)); }
    LoadIs(blk);
    LoadIs(blk[8..]);
    assert blk[8..][8..] == [blk[16]];
    assert Decode([blk[16]]) == blk[16] as int by { assert [blk[16]][1..] == []; }
    assert Load64(blk[8..], 0) == Load64(blk, 8);
  }

  ghost function Parse(msg: seq<byte>): Limbs { Split(Load64(Padded(msg), 0), Load64(Padded(msg), 8), Padded(msg)[16]) }

  lemma ParseIs(msg: seq<byte>)
    ensures Value(Parse(msg)) == Block(msg) && Message(Parse(msg))
  {
    PaddedIs(msg);
    SplitIs(Load64(Padded(msg), 0), Load64(Padded(msg), 8), Padded(msg)[16]);
  }

  /** The limbs after all blocks of msg. */
  ghost function Rounds(h: Limbs, msg: seq<byte>, r: Limbs): Limbs
    decreases |msg|
  {
    if msg == [] then h else Rounds(Round(h, r, Parse(msg)), Rest(msg), r)
  }

  lemma MulOut(x: nat, y: nat, q: nat, r: nat)
    requires x == 0x3fffffffffffffffffffffffffffffffb * q + y
    ensures x * r == y * r + 0x3fffffffffffffffffffffffffffffffb * (q * r)
  {}

  lemma AddMulMod(x: nat, m: nat, r: nat)
    ensures Step(x % P, m, r) == Step(x, m, r)
  {
    var q, y := x / P, x % P;
    MulOut(x + m, y + m, q, r);
    Congruent((x + m) * r, (y + m) * r, q * r);
  }

  lemma {:induction false} OneBlock(h: Limbs, m: Limbs, r: Limbs, g: Limbs, b: nat)
    requires Carried(h) && Key(r) && Message(m) && Value(m) == b && g == Round(h, r, m)
    ensures Carried(g) && Value(g) % P == Step(Value(h) % P, b, Value(r))
  {
    RoundIs(h, r, m);
    AddMulMod(Value(h), b, Value(r));
  }

  /** After every block the limbs are congruent to the accumulator of RFC 8439, and in range. */
  lemma {:induction false} RoundsIs(h: Limbs, msg: seq<byte>, r: Limbs)
    requires Carried(h) && Key(r)
    ensures Carried(Rounds(h, msg, r)) && Value(Rounds(h, msg, r)) % P == Accumulate(Value(h) % P, msg, Value(r))
    decreases |msg|
  {
    if msg != [] {
      var m := Parse(msg);
      var g := Round(h, r, m);
      ParseIs(msg);
      OneBlock(h, m, r, g, Block(msg));
      RoundsIs(g, Rest(msg), r);
    }
  }

  // ---------- the end ----------

  ghost function K2(h: Limbs): nat { h.h2 + h.h1 / 0x1000_0000_0000 }
  ghost function K0(h: Limbs): nat { h.h0 + K2(h) / 0x400_0000_0000 * 5 }
  ghost function K1(h: Limbs): nat { h.h1 % 0x1000_0000_0000 + K0(h) / 0x1000_0000_0000 }

  /** The final carry. */
  ghost function Finish(h: Limbs): Limbs
  {
    Limbs(K0(h) % 0x1000_0000_0000, K1(h) % 0x1000_0000_0000, K2(h) % 0x400_0000_0000 + K1(h) / 0x1000_0000_0000)
  }

  ghost predicate Reduced(h: Limbs) { h.h0 < 0x1000_0000_0000 && h.h1 < 0x1000_0000_0000 && h.h2 < 0x400_0000_0000 }

  lemma FinishSum(h: Limbs, c1: nat, l1: nat, c2: nat, l2: nat, c0: nat, l0: nat, c3: nat, l3: nat)
    requires h.h1 == 0x1000_0000_0000 * c1 + l1 && h.h2 + c1 == 0x400_0000_0000 * c2 + l2 && h.h0 + c2 * 5 == 0x1000_0000_0000 * c0 + l0
    requires l1 + c0 == 0x1000_0000_0000 * c3 + l3
    ensures Value(h) == Value(Limbs(l0, l3, l2 + c3)) + 0x3fffffffffffffffffffffffffffffffb * c2
  {}

  lemma FinishValue(h: Limbs)
    ensures Value(Finish(h)) % P == Value(h) % P
  {
    FinishSum(h, h.h1 / 0x1000_0000_0000, h.h1 % 0x1000_0000_0000, K2(h) / 0x400_0000_0000, K2(h) % 0x400_0000_0000,
              K0(h) / 0x1000_0000_0000, K0(h) % 0x1000_0000_0000, K1(h) / 0x1000_0000_0000, K1(h) % 0x1000_0000_0000);
    Congruent(Value(h), Value(Finish(h)), K2(h) / 0x400_0000_0000);
  }

  /** One short pass is enough: a carry out of the top leaves the top limb at most 1. */
  lemma FinishReduced(h: Limbs)
    requires Carried(h)
    ensures Reduced(Finish(h)) && K2(h) <= 0x400_0000_0000 && K0(h) < 0x1000_0000_0010 && K1(h) <= 0x1000_0000_0000
  {
    assert h.h1 / 0x1000_0000_0000 <= 1;
    if K2(h) < 0x400_0000_0000 {
      assert K2(h) / 0x400_0000_0000 == 0;
    } else {
      assert K2(h) == 0x400_0000_0000;
    }
  }

  /** What the selection makes of h: the low limbs of h + 5 if h is not below 2^130 - 5, but the top limb of h. */
  ghost function Selected(h: Limbs): Limbs
  {
    if Value(h) < 0x3fffffffffffffffffffffffffffffffb then h
    else Limbs((h.h0 + 5) % 0x1000_0000_0000, (h.h1 + (h.h0 + 5) / 0x1000_0000_0000) % 0x1000_0000_0000, h.h2)
  }

  /** Not below 2^130 - 5: all limbs are full. */
  lemma SelectedFull(h: Limbs)
    requires Reduced(h) && Value(h) >= 0x3fffffffffffffffffffffffffffffffb
    ensures h.h2 == 0x3ff_ffff_ffff && h.h1 == 0xfff_ffff_ffff && h.h0 >= 0xfff_ffff_fffb
    ensures Value(Selected(h)) == Value(h) - 0x3fffffffffffffffffffffffffffffffb + 0x100_0000_0000_0000_0000_0000 * 0x3ff_ffff_ffff
  {}

  /** The tag is that of RFC 8439 exactly if the carried accumulator is below 2^130 - 5. */
  lemma TagIff(h: Limbs, acc: nat, s: nat)
    requires Reduced(h) && Value(h) % P == acc
    ensures Sealed(Value(Selected(h)), s) == Sealed(acc, s) <==> Value(h) < P
  {
    if Value(h) < P { TagRight(h, acc); } else { TagWrong(h, acc, s); }
  }

  lemma TagRight(h: Limbs, acc: nat)
    requires Value(h) % P == acc && Value(h) < P
    ensures Selected(h) == h && acc == Value(h)
  {}

  lemma TagWrong(h: Limbs, acc: nat, s: nat)
    requires Reduced(h) && Value(h) % P == acc && Value(h) >= P
    ensures Sealed(Value(Selected(h)), s) != Sealed(acc, s)
  {
    var v, w := Value(h), Value(Selected(h));
    SelectedFull(h);
    DivMod(v, P, 1, v - P);
    Apart(acc + s, w + s);
  }

  lemma Apart(x: nat, y: nat)
    requires y == x + 0x100_0000_0000_0000_0000_0000 * 0x3ff_ffff_ffff
    ensures x % 0x1_0000_0000_0000_0000_0000_0000_0000_0000 != y % 0x1_0000_0000_0000_0000_0000_0000_0000_0000
  {
    assert y == x + 4 * 0x1_0000_0000_0000_0000_0000_0000_0000_0000 - 0x100_0000_0000_0000_0000_0000;
  }

  // ---------- packing ----------

  lemma ShiftMod(h: nat, a: nat, b: nat)
    requires a > 0 && b > 0 && a * b == 0x1_0000_0000_0000_0000
    ensures h * a % 0x1_0000_0000_0000_0000 == a * (h % b)
  {
    var q, r := h / b, h % b;
    assert h * a == a * b * q + a * r by {
      assert h == b * q + r;
      assert a * (b * q + r) == a * (b * q) + a * r;
      assert a * (b * q) == a * b * q;
    }
    assert a * r < a * b;
    DivMod(h * a, a * b, q, a * r);
  }

  /** The limbs as one 128-bit number, in two words. */
  lemma PackIs(h: Limbs, f0: nat, f1: nat)
    requires Reduced(h) && f0 == Or(h.h0, h.h1 * 0x1000_0000_0000 % 0x1_0000_0000_0000_0000)
    requires f1 == Or(h.h1 / 0x10_0000, h.h2 * 0x100_0000 % 0x1_0000_0000_0000_0000)
    ensures f0 < 0x1_0000_0000_0000_0000 && f1 < 0x1_0000_0000_0000_0000
    ensures f0 + 0x1_0000_0000_0000_0000 * f1 == Value(h) % 0x1_0000_0000_0000_0000_0000_0000_0000_0000
  {
    Powers();
    ShiftMod(h.h1, 0x1000_0000_0000, 0x10_0000);
    OrJoin(h.h0, h.h1 % 0x10_0000, 44);
    ShiftMod(h.h2, 0x100_0000, 0x100_0000_0000);
    OrJoin(h.h1 / 0x10_0000, h.h2 % 0x100_0000_0000, 24);
    DivMod(Value(h), 0x1_0000_0000_0000_0000_0000_0000_0000_0000, h.h2 / 0x100_0000_0000, f0 + 0x1_0000_0000_0000_0000 * f1);
  }

  lemma AddPad(x: nat, s: nat)
    ensures (x % 0x1_0000_0000_0000_0000_0000_0000_0000_0000 + s) % 0x1_0000_0000_0000_0000_0000_0000_0000_0000 == (x + s) % 0x1_0000_0000_0000_0000_0000_0000_0000_0000
  {
    var q := x / 0x1_0000_0000_0000_0000_0000_0000_0000_0000;
    assert x + s == 0x1_0000_0000_0000_0000_0000_0000_0000_0000 * (q + (x % 0x1_0000_0000_0000_0000_0000_0000_0000_0000 + s) / 0x1_0000_0000_0000_0000_0000_0000_0000_0000) + (x % 0x1_0000_0000_0000_0000_0000_0000_0000_0000 + s) % 0x1_0000_0000_0000_0000_0000_0000_0000_0000;
    DivMod(x + s, 0x1_0000_0000_0000_0000_0000_0000_0000_0000, q + (x % 0x1_0000_0000_0000_0000_0000_0000_0000_0000 + s) / 0x1_0000_0000_0000_0000_0000_0000_0000_0000, (x % 0x1_0000_0000_0000_0000_0000_0000_0000_0000 + s) % 0x1_0000_0000_0000_0000_0000_0000_0000_0000);
  }

  // ---------- poly1305_mac ----------

  /** The three sums of products. */
  method Columns(h0: uint64, h1: uint64, h2: uint64, r: Limbs) returns (d0: uint128, d1: uint128, d2: uint128)
    requires h0 <= 0x2000_0000_0000 && h1 <= 0x4000_0000_0000 && h2 <= 0x800_0000_0000 && Key(r)
    ensures var a := Limbs(h0, h1, h2); d0 == D0(a, r) && d1 == D1(a, r) && d2 == D2(a, r)
  {
    ColumnBounds(Limbs(h0, h1, h2), r);
    var s1: uint64, s2: uint64 := r.h1 * 20, r.h2 * 20;
    d0 := (h0 as int) * r.h0 + (h1 as int) * s2 + (h2 as int) * s1;
    d1 := (h0 as int) * r.h1 + (h1 as int) * r.h0 + (h2 as int) * s2;
    d2 := (h0 as int) * r.h2 + (h1 as int) * r.h1 + (h2 as int) * r.h0;
  }

  /** The body of the loop after the block is loaded. */
  method Multiply(h: Limbs, m: Limbs, r: Limbs) returns (g: Limbs)
    requires Carried(h) && Key(r) && Message(m)
    ensures g == Round(h, r, m)
  {
    ColumnBounds(Sum(h, m), r);
    var d0, d1, d2 := Columns(h.h0 + m.h0, h.h1 + m.h1, h.h2 + m.h2, r);
    g := CarryChain(d0, d1, d2);
  }

  method CarryChain(p0: uint128, p1: uint128, p2: uint128) returns (g: Limbs)
    requires p0 < 0x2000_0000_0000_0000_0000_0000 && p1 < 0x800_0000_0000_0000_0000_0000 && p2 < 0x800_0000_0000_0000_0000_0000
    ensures g == Propagate(Limbs(p0, p1, p2))
  {
    ghost var d := Limbs(p0, p1, p2);
    PropagateBounds(d);
    var d1, d2 := p1, p2;
    assert p0 / 0x1000_0000_0000 == C0(d);
    var cc: uint64 := p0 / 0x1000_0000_0000;
    var h0: uint64 := p0 % 0x1000_0000_0000;
    d1 := d1 + cc;
    assert d1 / 0x1000_0000_0000 == C1(d);
    cc := d1 / 0x1000_0000_0000;
    var h1: uint64 := d1 % 0x1000_0000_0000;
    d2 := d2 + cc;
    assert d2 / 0x400_0000_0000 == C2(d);
    cc := d2 / 0x400_0000_0000;
    var h2: uint64 := d2 % 0x400_0000_0000;
    h0 := h0 + cc * 5;
    assert h0 == F0(d);
    cc := h0 / 0x1000_0000_0000;
    h0 := h0 % 0x1000_0000_0000;
    h1 := h1 + cc;
    g := Limbs(h0, h1, h2);
  }

  /** The final carry. */
  method FinalCarry(h: Limbs) returns (g: Limbs)
    requires Carried(h)
    ensures g == Finish(h) && Reduced(g)
  {
    FinishReduced(h);
    var h0: uint64, h1: uint64, h2: uint64 := h.h0, h.h1, h.h2;
    var cc: uint64 := h1 / 0x1000_0000_0000;
    h1 := h1 % 0x1000_0000_0000;
    h2 := h2 + cc;
    assert h2 == K2(h);
    cc := h2 / 0x400_0000_0000;
    h2 := h2 % 0x400_0000_0000;
    h0 := h0 + cc * 5;
    assert h0 == K0(h);
    cc := h0 / 0x1000_0000_0000;
    h0 := h0 % 0x1000_0000_0000;
    h1 := h1 + cc;
    assert h1 == K1(h);
    cc := h1 / 0x1000_0000_0000;
    h1 := h1 % 0x1000_0000_0000;
    h2 := h2 + cc;
    g := Limbs(h0, h1, h2);
  }

  ghost function G1(h: Limbs): nat { h.h1 + (h.h0 + 5) / 0x1000_0000_0000 }

  /** The sign of h + 5 - 2^130 tells whether h is below 2^130 - 5. */
  lemma SignIs(h: Limbs)
    requires Reduced(h)
    ensures h.h2 + G1(h) / 0x1000_0000_0000 <= 0x400_0000_0000
    ensures h.h2 + G1(h) / 0x1000_0000_0000 < 0x400_0000_0000 <==> Value(h) < 0x3fffffffffffffffffffffffffffffffb
  {}

  lemma WrapNegative(x: nat)
    requires x <= 0x400_0000_0000
    ensures (x - 0x400_0000_0000) % 0x1_0000_0000_0000_0000 >= 0x8000_0000_0000_0000 <==> x < 0x400_0000_0000
  {}

  /** The conditional subtraction, by mask. */
  method Select(h: Limbs) returns (g: Limbs)
    requires Reduced(h)
    ensures g == Selected(h) && Reduced(g)
  {
    SignIs(h);
    var h0: uint64, h1: uint64, h2: uint64 := h.h0, h.h1, h.h2;
    var g0: uint64 := h0 + 5;
    var cc: uint64 := g0 / 0x1000_0000_0000;
    g0 := g0 % 0x1000_0000_0000;
    var g1: uint64 := h1 + cc;
    assert g1 == G1(h);
    cc := g1 / 0x1000_0000_0000;
    g1 := g1 % 0x1000_0000_0000;
    var g2: uint64 := (h2 + cc - 0x400_0000_0000) % 0x1_0000_0000_0000_0000;
    WrapNegative(h2 + cc);
    var mask: uint64 := if g2 >= 0x8000_0000_0000_0000 then 0xffff_ffff_ffff_ffff else 0;
    var l0, l1 := Choose(h0, g0, mask), Choose(h1, g1, mask);
    g := Limbs(l0, l1, h2);
    SelectedIs(h);
  }

  lemma SelectedIs(h: Limbs)
    requires Reduced(h)
    ensures Selected(h) == if h.h2 + G1(h) / 0x1000_0000_0000 < 0x400_0000_0000 then h
                           else Limbs((h.h0 + 5) % 0x1000_0000_0000, G1(h) % 0x1000_0000_0000, h.h2)
    ensures Reduced(Selected(h))
  {
    SignIs(h);
  }

  /** (x & mask) | (y & ~mask) */
  function Choose(x: uint64, y: uint64, mask: uint64): (z: nat)
    requires mask == 0 || mask == 0xffff_ffff_ffff_ffff
    ensures z == if mask == 0 then y else x
  {
    MaskChoice(x, y, mask);
    Or(And(x, mask), And(y, 0xffff_ffff_ffff_ffff - mask))
  }

  lemma MaskChoice(x: uint64, y: uint64, mask: uint64)
    requires mask == 0 || mask == 0xffff_ffff_ffff_ffff
    ensures Or(And(x, mask), And(y, 0xffff_ffff_ffff_ffff - mask)) == if mask == 0 then y else x
  {
    Powers();
    AndMask(x, 64);
    AndMask(y, 64);
    OrSelf(y);
    OrZero(x);
  }

  /** f0, f1 and the pad, and the sixteen bytes of the sum. */
  method Emit(h: Limbs, s: nat, tag: array<byte>)
    requires Reduced(h) && tag.Length == 16
    modifies tag
    ensures Decode(tag[..]) == Sealed(Value(h), s)
  {
    var f0: nat := Or(h.h0, h.h1 * 0x1000_0000_0000 % 0x1_0000_0000_0000_0000);
    var f1: nat := Or(h.h1 / 0x10_0000, h.h2 * 0x100_0000 % 0x1_0000_0000_0000_0000);
    EmitIs(h, f0, f1, s);
    StoreBytes((f0 + 0x1_0000_0000_0000_0000 * f1 + s) % 0x1_0000_0000_0000_0000_0000_0000_0000_0000, tag);
  }

  lemma EmitIs(h: Limbs, f0: nat, f1: nat, s: nat)
    requires Reduced(h) && f0 == Or(h.h0, h.h1 * 0x1000_0000_0000 % 0x1_0000_0000_0000_0000)
    requires f1 == Or(h.h1 / 0x10_0000, h.h2 * 0x100_0000 % 0x1_0000_0000_0000_0000)
    ensures (f0 + 0x1_0000_0000_0000_0000 * f1 + s) % 0x1_0000_0000_0000_0000_0000_0000_0000_0000 == Sealed(Value(h), s)
  {
    PackIs(h, f0, f1);
    PadSum(f0 + 0x1_0000_0000_0000_0000 * f1, Value(h), s);
  }

  lemma PadSum(y: nat, x: nat, s: nat)
    requires y == x % 0x1_0000_0000_0000_0000_0000_0000_0000_0000
    ensures (y + s) % 0x1_0000_0000_0000_0000_0000_0000_0000_0000 == Sealed(x, s)
  {
    AddPad(x, s);
  }

  method StoreBytes(sum: uint128, tag: array<byte>)
    requires tag.Length == 16
    modifies tag
    ensures Decode(tag[..]) == sum
  {
    var i := 0;
    while i < 16
      invariant 0 <= i <= 16 && forall k | 0 <= k < i :: tag[k] == sum / Pow2(8 * k) % 256
    {
      tag[i] := sum / Pow2(8 * i) % 256;
      i := i + 1;
    }
    assert sum < Pow2(128) by {
      Powers();
      Pow2Add(64, 64);
    }
    DecodeDigits(tag[..], sum);
  }

  /** The limbs at the end of the loop and of the final carry. */
  ghost function Final(key: seq<byte>, msg: seq<byte>): Limbs
    requires |key| == 32
  {
    FinalOf(msg, Clamped(Load64(key, 0), Load64(key, 8)))
  }

  ghost function FinalOf(msg: seq<byte>, r: Limbs): Limbs { Finish(Rounds(Limbs(0, 0, 0), msg, r)) }

  lemma KeyIs(key: seq<byte>)
    requires |key| == 32
    ensures Value(Clamped(Load64(key, 0), Load64(key, 8))) == R(key) && Key(Clamped(Load64(key, 0), Load64(key, 8)))
    ensures S(key) == Load64(key, 16) + 0x1_0000_0000_0000_0000 * Load64(key, 24)
  {
    ClampedIs(Load64(key, 0), Load64(key, 8));
    SixteenBytes(key[..16]);
    SixteenBytes(key[16..]);
  }

  lemma SixteenBytes(s: seq<byte>)
    requires |s| == 16
    ensures Decode(s) == Load64(s, 0) + 0x1_0000_0000_0000_0000 * Load64(s, 8)
  {
    LoadIs(s);
    LoadIs(s[8..]);
    assert s[8..][8..] == [];
    assert Load64(s[8..], 0) == Load64(s, 8);
  }

  lemma FinishAny(h: Limbs, f: Limbs, acc: nat)
    requires f == Finish(h)
    ensures Carried(h) && Value(h) % P == acc ==> Reduced(f) && Value(f) % P == acc
  {
    if Carried(h) { FinishReduced(h); }
    FinishValue(h);
  }

  lemma FinishRounds(z: Limbs, msg: seq<byte>, r: Limbs, acc: nat)
    requires Key(r) && Carried(z) && acc == Value(z) % P
    ensures Reduced(Finish(Rounds(z, msg, r))) && Value(Finish(Rounds(z, msg, r))) % P == Accumulate(acc, msg, Value(r))
  {
    RoundsIs(z, msg, r);
    FinishAny(Rounds(z, msg, r), Finish(Rounds(z, msg, r)), Accumulate(acc, msg, Value(r)));
  }

  lemma ZeroLimbs(z: Limbs)
    requires z == Limbs(0, 0, 0)
    ensures Carried(z) && Value(z) % P == 0
  {
    DivMod(0, P, 0, 0);
  }

  lemma {:induction false} FinalOfIs(msg: seq<byte>, r: Limbs)
    requires Key(r)
    ensures Reduced(FinalOf(msg, r)) && Value(FinalOf(msg, r)) % P == Accumulate(0, msg, Value(r))
  {
    ZeroLimbs(Limbs(0, 0, 0));
    FinishRounds(Limbs(0, 0, 0), msg, r, 0);
  }

  /** The final limbs are congruent to the accumulator of RFC 8439. */
  lemma {:induction false} FinalIs(key: seq<byte>, msg: seq<byte>)
    requires |key| == 32
    ensures Reduced(Final(key, msg)) && Value(Final(key, msg)) % P == Accumulate(0, msg, R(key))
  {
    KeyIs(key);
    FinalOfIs(msg, Clamped(Load64(key, 0), Load64(key, 8)));
  }

  /** f is Final(key, msg), kept folded: the definition is seen only where Folded is mentioned. */
  ghost predicate IsFinal(key: seq<byte>, msg: seq<byte>, f: Limbs)
    requires |key| == 32
  {
    forall n: nat {:trigger Folded(n)} | Folded(n) :: f == Final(key, msg)
  }

  lemma IsFinalFacts(key: seq<byte>, msg: seq<byte>, f: Limbs)
    requires |key| == 32 && IsFinal(key, msg, f)
    ensures Reduced(f) && Value(f) % P == Accumulate(0, msg, R(key))
  {
    assert Folded(0);
    FinalIs(key, msg);
  }

  /** The loop of poly1305_mac. */
  method Absorb(msg: seq<byte>, r: Limbs) returns (h: Limbs)
    requires Key(r)
    ensures h == Rounds(Limbs(0, 0, 0), msg, r) && Carried(h)
  {
    h := Limbs(0, 0, 0);
    var rest := msg;
    while rest != []
      invariant Carried(h) && Rounds(h, rest, r) == Rounds(Limbs(0, 0, 0), msg, r)
      decreases |rest|
    {
      h := AbsorbBlock(h, rest, r);
      rest := if |rest| < 16 then [] else rest[16..];
    }
  }

  method AbsorbBlock(h: Limbs, rest: seq<byte>, r: Limbs) returns (g: Limbs)
    requires Carried(h) && Key(r)
    ensures g == Round(h, r, Parse(rest)) && Carried(g)
  {
    var blk := Padded(rest);
    var m := Split(Load64(blk, 0), Load64(blk, 8), blk[16]);
    ParseIs(rest);
    RoundIs(h, r, m);
    g := Multiply(h, m, r);
  }

  /** The accumulator after all blocks and the final carry. */
  method Accumulated(msg: seq<byte>, key: seq<byte>) returns (f: Limbs)
    requires |key| == 32
    ensures IsFinal(key, msg, f) && Reduced(f)
  {
    KeyIs(key);
    var h := Absorb(msg, Clamped(Load64(key, 0), Load64(key, 8)));
    f := FinalCarry(h);
  }

  /** poly1305_mac: the tag of RFC 8439 exactly if the carried accumulator f is below 2^130 - 5. */
  method Mac(msg: seq<byte>, key: seq<byte>, tag: array<byte>) returns (ghost f: Limbs)
    requires |key| == 32 && tag.Length == 16
    modifies tag
    ensures IsFinal(key, msg, f) && (Decode(tag[..]) == Tag(key, msg) <==> Value(f) < P)
    ensures Decode(tag[..]) == Sealed(Value(Selected(f)), S(key))
  {
    var h := Accumulated(msg, key);
    f := h;
    h := Select(h);
    KeyIs(key);
    var pad0: nat, pad1: nat := Load64(key, 16), Load64(key, 24);
    Emit(h, pad0 + 0x1_0000_0000_0000_0000 * pad1, tag);
    MacTag(key, msg, f, Sealed(Value(h), S(key)));
  }

  lemma MacTag(key: seq<byte>, msg: seq<byte>, f: Limbs, t: nat)
    requires |key| == 32 && IsFinal(key, msg, f) && t == Sealed(Value(Selected(f)), S(key))
    ensures t == Tag(key, msg) <==> Value(f) < P
  {
    IsFinalFacts(key, msg, f);
    TagIff(f, Accumulate(0, msg, R(key)), S(key));
  }

  // ---------- an input on which the tag is not that of RFC 8439 ----------

  ghost function BadKey(): seq<byte> { [4] + seq(31, _ => 0) }
  ghost function BadMessage(): seq<byte> { [0xfe] + seq(15, _ => 0xff) }

  lemma BadLoads()
    ensures var k, b := BadKey(), Padded(BadMessage());
            && Load64(k, 0) == 4 && Load64(k, 8) == 0
            && Load64(b, 0) == 0xffff_ffff_ffff_fffe && Load64(b, 8) == 0xffff_ffff_ffff_ffff && b[16] == 1
  {
    var m := BadMessage();
    assert |m| == 16 && m[..16] == m;
  }

  lemma BadClamp(x: uint64, y: uint64)
    requires x == 4 && y == 0
    ensures Clamped(x, y) == Limbs(4, 0, 0)
  {
    MiddleIs(x, y);
    ClampFour(x, Middle(x, y), y / 0x100_0000, 0xffc_0fff_ffff, 0xfff_ffc0_ffff, 0xf_ffff_fc0f);
  }

  lemma ClampFour(x: nat, y: nat, z: nat, l: nat, m: nat, n: nat)
    requires x == 4 && y == 0 && z == 0 && l % 8 == 7
    ensures Limbs(And(x, l), And(y, m), And(z, n)) == Limbs(4, 0, 0)
  {
    AndFour(x, l);
    AndNone(y, m);
    AndNone(z, n);
  }

  lemma AndFour(x: nat, m: nat)
    requires x == 4 && m % 8 == 7
    ensures And(x, m) == 4
  {
    AndBits(x, m);
    AndBits(x / 2, m / 2);
    AndBits(x / 2 / 2, m / 2 / 2);
    AndNone(x / 2 / 2 / 2, m / 2 / 2 / 2);
  }

  lemma {:induction false} AndNone(x: nat, y: nat)
    requires x == 0
    ensures And(x, y) == 0
  {
    if y > 0 { AndNone(x / 2, y / 2); }
  }

  lemma BadColumns(m: Limbs, r: Limbs)
    requires r == Limbs(4, 0, 0) && m == Limbs(0xfff_ffff_fffe, 0xfff_ffff_ffff, 0x1ff_ffff_ffff)
    ensures Limbs(D0(m, r), D1(m, r), D2(m, r)) == Limbs(0x3fff_ffff_fff8, 0x3fff_ffff_fffc, 0x7ff_ffff_fffc)
  {}

  lemma BadCarry(d: Limbs)
    requires d == Limbs(0x3fff_ffff_fff8, 0x3fff_ffff_fffc, 0x7ff_ffff_fffc)
    ensures Propagate(d) == Limbs(0xfff_ffff_fffd, 0xfff_ffff_ffff, 0x3ff_ffff_ffff)
  {
    assert C0(d) == 3 && C1(d) == 3 && C2(d) == 1 && F0(d) == 0xfff_ffff_fffd;
  }

  lemma BadFinish(h: Limbs)
    requires h == Limbs(0xfff_ffff_fffd, 0xfff_ffff_ffff, 0x3ff_ffff_ffff)
    ensures Finish(h) == h && Value(h) == 0x3fffffffffffffffffffffffffffffffd
  {
    FinishSmall(h);
  }

  lemma FinishSmall(h: Limbs)
    requires Reduced(h)
    ensures Finish(h) == h
  {
    assert K2(h) == h.h2;
    assert K0(h) == h.h0;
    assert K1(h) == h.h1;
  }

  lemma BadRound(m: Limbs, r: Limbs, g: Limbs)
    requires r == Limbs(4, 0, 0) && m == Limbs(0xfff_ffff_fffe, 0xfff_ffff_ffff, 0x1ff_ffff_ffff) && g == Round(Limbs(0, 0, 0), r, m)
    ensures Finish(g) == g && Value(g) == 0x3fffffffffffffffffffffffffffffffd
  {
    assert Sum(Limbs(0, 0, 0), m) == m;
    BadColumns(m, r);
    BadCarry(Limbs(D0(m, r), D1(m, r), D2(m, r)));
    BadFinish(g);
  }

  lemma LastBlock(h: Limbs, msg: seq<byte>, r: Limbs)
    requires 0 < |msg| <= 16
    ensures Rounds(h, msg, r) == Round(h, r, Parse(msg))
  {
    assert Rest(msg) == [];
  }

  lemma BadParse(x: uint64, y: uint64)
    requires x == 0xffff_ffff_ffff_fffe && y == 0xffff_ffff_ffff_ffff
    ensures Split(x, y, 1) == Limbs(0xfff_ffff_fffe, 0xfff_ffff_ffff, 0x1ff_ffff_ffff)
  {
    SplitLimbs(x, y, 1);
  }

  lemma BadFinal(r: Limbs, m: Limbs, msg: seq<byte>)
    requires 0 < |msg| <= 16 && r == Limbs(4, 0, 0) && m == Parse(msg) == Limbs(0xfff_ffff_fffe, 0xfff_ffff_ffff, 0x1ff_ffff_ffff)
    ensures Value(FinalOf(msg, r)) == 0x3fffffffffffffffffffffffffffffffd
  {
    LastBlock(Limbs(0, 0, 0), msg, r);
    BadRound(m, r, Round(Limbs(0, 0, 0), r, m));
  }

  /** For this key and message the accumulator is 2^130 - 3, and what the code emits is not the tag of RFC 8439. */
  lemma WrongTag()
    ensures |BadKey()| == 32 && Value(Final(BadKey(), BadMessage())) == 0x3fffffffffffffffffffffffffffffffd
    ensures Sealed(Value(Selected(Final(BadKey(), BadMessage()))), S(BadKey())) != Tag(BadKey(), BadMessage())
  {
    var key, msg := BadKey(), BadMessage();
    BadAccumulator();
    FinalIs(key, msg);
    TagIff(Final(key, msg), Accumulate(0, msg, R(key)), S(key));
  }

  lemma BadAccumulator()
    ensures |BadKey()| == 32 && Value(Final(BadKey(), BadMessage())) == 0x3fffffffffffffffffffffffffffffffd
  {
    var k, b := BadKey(), Padded(BadMessage());
    BadLoads();
    BadClamp(Load64(k, 0), Load64(k, 8));
    BadParse(Load64(b, 0), Load64(b, 8));
    BadFinal(Clamped(Load64(k, 0), Load64(k, 8)), Parse(BadMessage()), BadMessage());
  }
}
