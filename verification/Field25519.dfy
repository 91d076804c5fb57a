/** The ten-limb field arithmetic of kernel/net/tls.c (fe_load to fe_mul121665), limb by limb, with
    every 32-bit and 64-bit intermediate given its C type so that a value out of range is an error. */
module Field25519 {
  import opened Bits
  import opened Rfc7748

  type int32 = x: int | -0x80000000 <= x < 0x80000000
  type int64 = x: int | -0x8000000000000000 <= x < 0x8000000000000000

  /** The value of ten limbs of alternating 26 and 25 bits. */
  type Limbs = s: seq<int> | |s| == 10 witness [0, 0, 0, 0, 0, 0, 0, 0, 0, 0]

  ghost function Eval(f: Limbs): int
  {
    f[0] + 0x4000000 * f[1] + 0x8000000000000 * f[2] + 0x20000000000000000000 * f[3]
    + 0x40000000000000000000000000 * f[4] + 0x100000000000000000000000000000000 * f[5]
    + 0x200000000000000000000000000000000000000 * f[6]
    + 0x800000000000000000000000000000000000000000000 * f[7]
    + 0x1000000000000000000000000000000000000000000000000000 * f[8]
    + 0x4000000000000000000000000000000000000000000000000000000000 * f[9]
  }

  /** Even limbs within 2b, odd limbs within b. */
  ghost predicate Bounded(f: Limbs, b: int)
  {
    && -2 * b <= f[0] <= 2 * b && -b <= f[1] <= b && -2 * b <= f[2] <= 2 * b && -b <= f[3] <= b
    && -2 * b <= f[4] <= 2 * b && -b <= f[5] <= b && -2 * b <= f[6] <= 2 * b && -b <= f[7] <= b
    && -2 * b <= f[8] <= 2 * b && -b <= f[9] <= b
  }

  // The bounds of the ref10 representation: 1.01 * 2^24 after a carry chain, 2^25 after loading,
  // 1.65 * 2^25 for an operand of a multiplication.
  const TIGHT := 16944988
  const LOOSE := 33554432
  const WIDE := 55364812

  ghost function Value(a: array<int32>): int
    requires a.Length == 10
    reads a
  {
    Eval(a[..]) % P
  }

  // ---------- schoolbook product ----------

  lemma EvalScale(c: int, f: Limbs, r: Limbs)
    requires forall i | 0 <= i < 10 :: r[i] == c * f[i]
    ensures Eval(r) == c * Eval(f)
  {}

  lemma EvalPlus(f: Limbs, g: Limbs, h: Limbs)
    requires forall i | 0 <= i < 10 :: h[i] == f[i] + g[i]
    ensures Eval(h) == Eval(f) + Eval(g)
  {}

  lemma EvalMinus(f: Limbs, g: Limbs, h: Limbs)
    requires forall i | 0 <= i < 10 :: h[i] == f[i] - g[i]
    ensures Eval(h) == Eval(f) - Eval(g)
  {}

  /** g times 2^26: one limb up, doubled where two odd positions meet, the top limb back times 19. */
  ghost function Up1(g: Limbs): Limbs
  {
    [38 * g[9], g[0], 2 * g[1], g[2], 2 * g[3], g[4], 2 * g[5], g[6], 2 * g[7], g[8]]
  }

  /** g times 2^51: two limbs up, the two top limbs back times 19. */
  ghost function Up2(g: Limbs): Limbs
  {
    [19 * g[8], 19 * g[9], g[0], g[1], g[2], g[3], g[4], g[5], g[6], g[7]]
  }

  /** g times the weight of limb i. */
  ghost function Up(i: nat, g: Limbs): Limbs
  {
    if i == 0 then g else if i == 1 then Up1(g) else Up2(Up(i - 2, g))
  }

  ghost function Weight(i: nat): int
  {
    if i == 0 then 1 else if i == 1 then 0x4000000 else 0x8000000000000 * Weight(i - 2)
  }

  lemma Up2Eval(g: Limbs)
    ensures Eval(Up2(g)) == 0x8000000000000 * Eval(g)
                          - 0x7fffffffffffffffffffffffffffffffffffffffffffffffffffffffffffffed * (g[8] + 0x4000000 * g[9])
  {}

  lemma UpEval(i: nat, g: Limbs) returns (m: int)
    ensures Eval(Up(i, g)) == Weight(i) * Eval(g)
                            - 0x7fffffffffffffffffffffffffffffffffffffffffffffffffffffffffffffed * m
  {
    if i == 0 {
      m := 0;
    } else if i == 1 {
      m := 2 * g[9];
    } else {
      var s := Up(i - 2, g);
      var q := UpEval(i - 2, g);
      Up2Eval(s);
      m := 0x8000000000000 * q + s[8] + 0x4000000 * s[9];
    }
  }

  /** The factors that column k of fe_mul takes from limb i of f and from its partner in g. */
  ghost function Lhs(f: Limbs, i: nat, k: nat): int
    requires i < 10
  {
    if i % 2 == 1 && k % 2 == 0 then 2 * f[i] else f[i]
  }

  ghost function Rhs(g: Limbs, i: nat, k: nat): int
    requires i < 10 && k < 10
  {
    if k < i then 19 * g[k + 10 - i] else g[k - i]
  }

  lemma UpAt(i: nat, k: nat, g: Limbs)
    requires i < 10 && k < 10
    ensures Up(i, g)[k] == if i % 2 == 1 && k % 2 == 0 then 2 * Rhs(g, i, k) else Rhs(g, i, k)
  {
    if i >= 2 {
      var s, j := Up(i - 2, g), if k < 2 then k + 8 else k - 2;
      UpAt(i - 2, j, g);
      assert Up(i, g)[k] == if k < 2 then 19 * s[j] else s[j];
      assert Rhs(g, i, k) == if k < 2 then 19 * Rhs(g, i - 2, j) else Rhs(g, i - 2, j);
    }
  }

  lemma RowTerm(f: Limbs, g: Limbs, i: nat, k: nat)
    requires i < 10 && k < 10
    ensures Lhs(f, i, k) * Rhs(g, i, k) == f[i] * Up(i, g)[k]
  {
    UpAt(i, k, g);
  }

  /** Column k of the product, through row n. */
  ghost function Column(f: Limbs, g: Limbs, k: nat, n: nat): int
    requires k < 10 && n <= 10
  {
    if n == 0 then 0 else Column(f, g, k, n - 1) + Lhs(f, n - 1, k) * Rhs(g, n - 1, k)
  }

  ghost function Low(f: Limbs, n: nat): int
    requires n <= 10
  {
    if n == 0 then 0 else Low(f, n - 1) + Weight(n - 1) * f[n - 1]
  }

  lemma RowEval(c: int, u: Limbs, r: Limbs, w: int, g: int, m: int)
    requires forall k | 0 <= k < 10 :: r[k] == c * u[k]
    requires Eval(u) == w * g - 0x7fffffffffffffffffffffffffffffffffffffffffffffffffffffffffffffed * m
    ensures Eval(r) == c * (w * g) - 0x7fffffffffffffffffffffffffffffffffffffffffffffffffffffffffffffed * (c * m)
  {
    EvalScale(c, u, r);
    DistributeP(c, w * g, m);
  }

  lemma DistributeP(c: int, a: int, m: int)
    ensures c * (a - 0x7fffffffffffffffffffffffffffffffffffffffffffffffffffffffffffffed * m)
         == c * a - 0x7fffffffffffffffffffffffffffffffffffffffffffffffffffffffffffffed * (c * m)
  {}

  lemma RowStep(f: Limbs, g: Limbs, i: nat, c: Limbs, d: Limbs) returns (m: int)
    requires i < 10
    requires forall k | 0 <= k < 10 :: d[k] == c[k] + Lhs(f, i, k) * Rhs(g, i, k)
    ensures Eval(d) == Eval(c) + f[i] * (Weight(i) * Eval(g))
                     - 0x7fffffffffffffffffffffffffffffffffffffffffffffffffffffffffffffed * (f[i] * m)
  {
    var r := seq(10, k requires 0 <= k < 10 => f[i] * Up(i, g)[k]);
    forall k | 0 <= k < 10
      ensures d[k] == c[k] + r[k]
    {
      RowTerm(f, g, i, k);
    }
    m := UpEval(i, g);
    RowEval(f[i], Up(i, g), r, Weight(i), Eval(g), m);
    EvalPlus(c, r, d);
  }

  lemma Columns(f: Limbs, g: Limbs, n: nat, h: Limbs) returns (m: int)
    requires n <= 10
    requires forall k | 0 <= k < 10 :: h[k] == Column(f, g, k, n)
    ensures Eval(h) == Low(f, n) * Eval(g)
                     - 0x7fffffffffffffffffffffffffffffffffffffffffffffffffffffffffffffed * m
  {
    if n == 0 {
      m := 0;
    } else {
      var c := seq(10, k requires 0 <= k < 10 => Column(f, g, k, n - 1));
      var q := Columns(f, g, n - 1, c);
      var s := RowStep(f, g, n - 1, c, h);
      m := q + f[n - 1] * s;
      Distribute(Low(f, n - 1), Weight(n - 1), f[n - 1], Eval(g));
    }
  }

  lemma Distribute(a: int, w: int, x: int, g: int)
    ensures (a + w * x) * g == a * g + x * (w * g)
  {}

  lemma LowAll(f: Limbs)
    ensures Low(f, 10) == Eval(f)
  {
    assert Weight(2) == 0x8000000000000 && Weight(3) == 0x20000000000000000000;
    assert Weight(4) == 0x40000000000000000000000000 && Weight(5) == 0x100000000000000000000000000000000;
    assert Weight(6) == 0x200000000000000000000000000000000000000;
    assert Weight(7) == 0x800000000000000000000000000000000000000000000;
    assert Weight(8) == 0x1000000000000000000000000000000000000000000000000000;
    assert Weight(9) == 0x4000000000000000000000000000000000000000000000000000000000;
    assert Low(f, 1) == f[0];
    assert Low(f, 2) == f[0] + 0x4000000 * f[1];
    assert Low(f, 4) == Low(f, 2) + Weight(2) * f[2] + Weight(3) * f[3];
    assert Low(f, 6) == Low(f, 4) + Weight(4) * f[4] + Weight(5) * f[5];
    assert Low(f, 8) == Low(f, 6) + Weight(6) * f[6] + Weight(7) * f[7];
    assert Low(f, 10) == Low(f, 8) + Weight(8) * f[8] + Weight(9) * f[9];
  }

  // ---------- carries ----------

  method RoundCarry26(h: int64) returns (c: int64)
    requires -0x4000000000000000 <= h <= 0x4000000000000000
    ensures -0x2000000 <= h - 0x4000000 * c < 0x2000000
  {
    c := (h + 0x2000000) / 0x4000000;
  }

  method RoundCarry25(h: int64) returns (c: int64)
    requires -0x4000000000000000 <= h <= 0x4000000000000000
    ensures -0x1000000 <= h - 0x2000000 * c < 0x1000000
  {
    c := (h + 0x1000000) / 0x2000000;
  }

  const COLUMN_MAX := 0x3000000000000000

  /** First six carries of fe_mul: the chains from h0 and from h4. */
  method CarryFront(i: seq<int64>) returns (o: seq<int64>)
    requires |i| == 10 && forall k | 0 <= k < 10 :: -COLUMN_MAX <= i[k] <= COLUMN_MAX
    ensures |o| == 10 && Eval(o) == Eval(i)
    ensures forall k | 0 <= k < 10 && k != 3 && k != 7 && k < 8 ::
              if k % 2 == 0 then -0x2000000 <= o[k] <= 0x2000000 else -0x1000000 <= o[k] <= 0x1000000
    ensures forall k | 0 <= k < 10 :: -0x3800000000000000 <= o[k] <= 0x3800000000000000
  {
    var h0, h1, h2, h3, h4, h5, h6, h7 := i[0], i[1], i[2], i[3], i[4], i[5], i[6], i[7];
    var c: int64;
    c := RoundCarry26(h0); h1 := h1 + c; h0 := h0 - c * 0x4000000;
    c := RoundCarry26(h4); h5 := h5 + c; h4 := h4 - c * 0x4000000;
    c := RoundCarry25(h1); h2 := h2 + c; h1 := h1 - c * 0x2000000;
    c := RoundCarry25(h5); h6 := h6 + c; h5 := h5 - c * 0x2000000;
    c := RoundCarry26(h2); h3 := h3 + c; h2 := h2 - c * 0x4000000;
    c := RoundCarry26(h6); h7 := h7 + c; h6 := h6 - c * 0x4000000;
    o := [h0, h1, h2, h3, h4, h5, h6, h7, i[8], i[9]];
  }

  /** Last six carries of fe_mul: both chains meet, h9 wraps into h0 times 19, and h0 settles. */
  method CarryBack(i: seq<int64>) returns (o: seq<int64>, ghost m: int)
    requires |i| == 10
    requires forall k | 0 <= k < 10 && k != 3 && k != 7 && k < 8 ::
               if k % 2 == 0 then -0x2000000 <= i[k] <= 0x2000000 else -0x1000000 <= i[k] <= 0x1000000
    requires forall k | 0 <= k < 10 :: -0x3800000000000000 <= i[k] <= 0x3800000000000000
    ensures |o| == 10 && Bounded(o, TIGHT)
    ensures Eval(o) == Eval(i) - 0x7fffffffffffffffffffffffffffffffffffffffffffffffffffffffffffffed * m
  {
    var h0, h1, h3, h4, h5, h7, h8, h9 := i[0], i[1], i[3], i[4], i[5], i[7], i[8], i[9];
    var c: int64;
    c := RoundCarry25(h3); h4 := h4 + c; h3 := h3 - c * 0x2000000;
    c := RoundCarry25(h7); h8 := h8 + c; h7 := h7 - c * 0x2000000;
    c := RoundCarry26(h4); h5 := h5 + c; h4 := h4 - c * 0x4000000;
    c := RoundCarry26(h8); h9 := h9 + c; h8 := h8 - c * 0x4000000;
    c := RoundCarry25(h9); h0 := h0 + c * 19; h9 := h9 - c * 0x2000000;
    m := c;
    c := RoundCarry26(h0); h1 := h1 + c; h0 := h0 - c * 0x4000000;
    o := [h0, h1, i[2], h3, h4, h5, i[6], h7, h8, h9];
  }

  /** The carries of fe_mul121665: odd limbs first, then even limbs. */
  method CarryScaled(i: seq<int64>) returns (o: seq<int64>, ghost m: int)
    requires |i| == 10 && Bounded(i, 121665 * (2 * TIGHT))
    ensures |o| == 10 && Bounded(o, TIGHT)
    ensures Eval(o) == Eval(i) - 0x7fffffffffffffffffffffffffffffffffffffffffffffffffffffffffffffed * m
  {
    var h0, h1, h2, h3, h4 := i[0], i[1], i[2], i[3], i[4];
    var h5, h6, h7, h8, h9 := i[5], i[6], i[7], i[8], i[9];
    var c: int64;
    c := RoundCarry25(h9); h0 := h0 + c * 19; h9 := h9 - c * 0x2000000;
    m := c;
    c := RoundCarry25(h1); h2 := h2 + c; h1 := h1 - c * 0x2000000;
    c := RoundCarry25(h3); h4 := h4 + c; h3 := h3 - c * 0x2000000;
    c := RoundCarry25(h5); h6 := h6 + c; h5 := h5 - c * 0x2000000;
    c := RoundCarry25(h7); h8 := h8 + c; h7 := h7 - c * 0x2000000;
    c := RoundCarry26(h0); h1 := h1 + c; h0 := h0 - c * 0x4000000;
    c := RoundCarry26(h2); h3 := h3 + c; h2 := h2 - c * 0x4000000;
    c := RoundCarry26(h4); h5 := h5 + c; h4 := h4 - c * 0x4000000;
    c := RoundCarry26(h6); h7 := h7 + c; h6 := h6 - c * 0x4000000;
    c := RoundCarry26(h8); h9 := h9 + c; h8 := h8 - c * 0x4000000;
    o := [h0, h1, h2, h3, h4, h5, h6, h7, h8, h9];
  }

  lemma ProductBound(a: int, b: int)
    requires -110729625 <= a <= 110729625 && -2103862875 <= b <= 2103862875
    ensures -232959947200171875 <= a * b <= 232959947200171875
  {
    if b >= 0 { Monotone(a, 110729625, b, 2103862875); } else { Monotone(a, 110729625, -b, 2103862875); }
  }

  lemma Monotone(a: int, x: nat, b: nat, y: nat)
    requires 0 - x <= a <= x && b <= y
    ensures 0 - x * y <= a * b <= x * y
  {
    assert a * b <= x * b && (0 - x) * b <= a * b;
    assert x * b <= x * y;
  }

  // ---------- multiplication ----------

  /** (int64_t)a * b */
  method Product(a: int32, b: int32) returns (r: int64)
    requires -110729625 <= a <= 110729625 && -2103862875 <= b <= 2103862875
    ensures r == (a as int) * b
    ensures -232959947200171875 <= r <= 232959947200171875
  {
    ProductBound(a, b);
    r := (a as int) * b;
  }

  /** One 64-bit column of fe_mul, summed left to right. */
  method SumColumn(ghost f: Limbs, ghost g: Limbs, ghost k: nat, a: seq<int32>, b: seq<int32>) returns (h: int64)
    requires k < 10 && |a| == 10 && |b| == 10
    requires forall i | 0 <= i < 10 :: a[i] == Lhs(f, i, k) && b[i] == Rhs(g, i, k)
    requires forall i | 0 <= i < 10 :: -110729625 <= a[i] <= 110729625 && -2103862875 <= b[i] <= 2103862875
    ensures h == Column(f, g, k, 10)
    ensures -COLUMN_MAX <= h <= COLUMN_MAX
  {
    h := 0;
    var p: int64;
    p := Product(a[0], b[0]); h := h + p; assert h == Column(f, g, k, 1);
    p := Product(a[1], b[1]); h := h + p; assert h == Column(f, g, k, 2);
    p := Product(a[2], b[2]); h := h + p; assert h == Column(f, g, k, 3);
    p := Product(a[3], b[3]); h := h + p; assert h == Column(f, g, k, 4);
    p := Product(a[4], b[4]); h := h + p; assert h == Column(f, g, k, 5);
    p := Product(a[5], b[5]); h := h + p; assert h == Column(f, g, k, 6);
    p := Product(a[6], b[6]); h := h + p; assert h == Column(f, g, k, 7);
    p := Product(a[7], b[7]); h := h + p; assert h == Column(f, g, k, 8);
    p := Product(a[8], b[8]); h := h + p; assert h == Column(f, g, k, 9);
    p := Product(a[9], b[9]); h := h + p; assert h == Column(f, g, k, 10);
  }

  method EvenColumns(f: seq<int32>, g: seq<int32>) returns (h0: int64, h2: int64, h4: int64, h6: int64, h8: int64)
    requires |f| == 10 && |g| == 10 && Bounded(f, WIDE) && Bounded(g, WIDE)
    ensures h0 == Column(f, g, 0, 10) && -COLUMN_MAX <= h0 <= COLUMN_MAX
    ensures h2 == Column(f, g, 2, 10) && -COLUMN_MAX <= h2 <= COLUMN_MAX
    ensures h4 == Column(f, g, 4, 10) && -COLUMN_MAX <= h4 <= COLUMN_MAX
    ensures h6 == Column(f, g, 6, 10) && -COLUMN_MAX <= h6 <= COLUMN_MAX
    ensures h8 == Column(f, g, 8, 10) && -COLUMN_MAX <= h8 <= COLUMN_MAX
  {
    var f0, f1, f2, f3, f4, f5, f6, f7, f8, f9 := f[0], f[1], f[2], f[3], f[4], f[5], f[6], f[7], f[8], f[9];
    var g0, g1, g2, g3, g4, g5, g6, g7, g8, g9 := g[0], g[1], g[2], g[3], g[4], g[5], g[6], g[7], g[8], g[9];
    var g1_19: int32, g2_19: int32, g3_19: int32 := 19 * g1, 19 * g2, 19 * g3;
    var g4_19: int32, g5_19: int32, g6_19: int32 := 19 * g4, 19 * g5, 19 * g6;
    var g7_19: int32, g8_19: int32, g9_19: int32 := 19 * g7, 19 * g8, 19 * g9;
    var f1_2: int32, f3_2: int32, f5_2: int32, f7_2: int32, f9_2: int32 := 2 * f1, 2 * f3, 2 * f5, 2 * f7, 2 * f9;
    h0 := SumColumn(f, g, 0, [f0, f1_2, f2, f3_2, f4, f5_2, f6, f7_2, f8, f9_2], [g0, g9_19, g8_19, g7_19, g6_19, g5_19, g4_19, g3_19, g2_19, g1_19]);
    h2 := SumColumn(f, g, 2, [f0, f1_2, f2, f3_2, f4, f5_2, f6, f7_2, f8, f9_2], [g2, g1, g0, g9_19, g8_19, g7_19, g6_19, g5_19, g4_19, g3_19]);
    h4 := SumColumn(f, g, 4, [f0, f1_2, f2, f3_2, f4, f5_2, f6, f7_2, f8, f9_2], [g4, g3, g2, g1, g0, g9_19, g8_19, g7_19, g6_19, g5_19]);
    h6 := SumColumn(f, g, 6, [f0, f1_2, f2, f3_2, f4, f5_2, f6, f7_2, f8, f9_2], [g6, g5, g4, g3, g2, g1, g0, g9_19, g8_19, g7_19]);
    h8 := SumColumn(f, g, 8, [f0, f1_2, f2, f3_2, f4, f5_2, f6, f7_2, f8, f9_2], [g8, g7, g6, g5, g4, g3, g2, g1, g0, g9_19]);
  }

  method OddColumns(f: seq<int32>, g: seq<int32>) returns (h1: int64, h3: int64, h5: int64, h7: int64, h9: int64)
    requires |f| == 10 && |g| == 10 && Bounded(f, WIDE) && Bounded(g, WIDE)
    ensures h1 == Column(f, g, 1, 10) && -COLUMN_MAX <= h1 <= COLUMN_MAX
    ensures h3 == Column(f, g, 3, 10) && -COLUMN_MAX <= h3 <= COLUMN_MAX
    ensures h5 == Column(f, g, 5, 10) && -COLUMN_MAX <= h5 <= COLUMN_MAX
    ensures h7 == Column(f, g, 7, 10) && -COLUMN_MAX <= h7 <= COLUMN_MAX
    ensures h9 == Column(f, g, 9, 10) && -COLUMN_MAX <= h9 <= COLUMN_MAX
  {
    var f0, f1, f2, f3, f4, f5, f6, f7, f8, f9 := f[0], f[1], f[2], f[3], f[4], f[5], f[6], f[7], f[8], f[9];
    var g0, g1, g2, g3, g4, g5, g6, g7, g8, g9 := g[0], g[1], g[2], g[3], g[4], g[5], g[6], g[7], g[8], g[9];
    var g1_19: int32, g2_19: int32, g3_19: int32 := 19 * g1, 19 * g2, 19 * g3;
    var g4_19: int32, g5_19: int32, g6_19: int32 := 19 * g4, 19 * g5, 19 * g6;
    var g7_19: int32, g8_19: int32, g9_19: int32 := 19 * g7, 19 * g8, 19 * g9;
    h1 := SumColumn(f, g, 1, [f0, f1, f2, f3, f4, f5, f6, f7, f8, f9], [g1, g0, g9_19, g8_19, g7_19, g6_19, g5_19, g4_19, g3_19, g2_19]);
    h3 := SumColumn(f, g, 3, [f0, f1, f2, f3, f4, f5, f6, f7, f8, f9], [g3, g2, g1, g0, g9_19, g8_19, g7_19, g6_19, g5_19, g4_19]);
    h5 := SumColumn(f, g, 5, [f0, f1, f2, f3, f4, f5, f6, f7, f8, f9], [g5, g4, g3, g2, g1, g0, g9_19, g8_19, g7_19, g6_19]);
    h7 := SumColumn(f, g, 7, [f0, f1, f2, f3, f4, f5, f6, f7, f8, f9], [g7, g6, g5, g4, g3, g2, g1, g0, g9_19, g8_19]);
    h9 := SumColumn(f, g, 9, [f0, f1, f2, f3, f4, f5, f6, f7, f8, f9], [g9, g8, g7, g6, g5, g4, g3, g2, g1, g0]);
  }

  method MulLimbs(f: seq<int32>, g: seq<int32>) returns (t: seq<int64>, ghost m: int)
    requires |f| == 10 && |g| == 10 && Bounded(f, WIDE) && Bounded(g, WIDE)
    ensures |t| == 10 && Bounded(t, TIGHT)
    ensures Eval(t) == Eval(f) * Eval(g) - 0x7fffffffffffffffffffffffffffffffffffffffffffffffffffffffffffffed * m
  {
    var h0, h2, h4, h6, h8 := EvenColumns(f, g);
    var h1, h3, h5, h7, h9 := OddColumns(f, g);
    var c := [h0, h1, h2, h3, h4, h5, h6, h7, h8, h9];
    ghost var q := Columns(f, g, 10, c);
    LowAll(f);
    t := CarryFront(c);
    t, m := CarryBack(t);
    m := q + m;
  }

  method FeMul(h: array<int32>, f: array<int32>, g: array<int32>)
    requires h.Length == 10 && f.Length == 10 && g.Length == 10
    requires Within(f, WIDE) && Within(g, WIDE)
    modifies h
    ensures Within(h, TIGHT)
    ensures Value(h) == Mul(old(Value(f)), old(Value(g)))
  {
    var t, m := MulLimbs(f[..], g[..]);
    ModProduct(Eval(f[..]), Eval(g[..]), Eval(t), m);
    WidenLimbs(t);
    StoreLimbs(h, t);
  }

  lemma WidenLimbs(f: Limbs)
    ensures Bounded(f, TIGHT) ==> Bounded(f, LOOSE)
    ensures Bounded(f, LOOSE) ==> Bounded(f, WIDE)
  {}

  method StoreLimbs(h: array<int32>, t: seq<int64>)
    requires h.Length == 10 && |t| == 10 && Bounded(t, WIDE)
    modifies h
    ensures h[..] == t
  {
    h[0], h[1], h[2], h[3], h[4] := t[0], t[1], t[2], t[3], t[4];
    h[5], h[6], h[7], h[8], h[9] := t[5], t[6], t[7], t[8], t[9];
  }

  lemma ModProduct(a: int, b: int, r: int, m: int)
    requires r == a * b - 0x7fffffffffffffffffffffffffffffffffffffffffffffffffffffffffffffed * m
    ensures r % P == Mul(a % P, b % P)
  {
    ModUnique(r, a * b, 0 - m);
    ModMul(a, b);
  }

  /** Adding a multiple of P does not change the residue. */
  lemma ModUnique(x: int, y: int, m: int)
    requires x == y + 0x7fffffffffffffffffffffffffffffffffffffffffffffffffffffffffffffed * m
    ensures x % P == y % P
  {
    var q := y / P;
    assert x == P * (q + m) + y % P;
    DivMod(x, P, q + m, y % P);
  }

  lemma ModMul(a: int, b: int)
    ensures (a * b) % P == Mul(a % P, b % P)
  {
    var x, y := a % P, b % P;
    calc {
      a * b;
      (P * (a / P) + x) * (P * (b / P) + y);
      P * ((a / P) * (P * (b / P) + y) + x * (b / P)) + x * y;
    }
    ModUnique(a * b, x * y, (a / P) * (P * (b / P) + y) + x * (b / P));
  }


  ghost predicate Within(a: array<int32>, b: int)
    requires a.Length == 10
    reads a
  {
    Bounded(a[..], b)
  }

  // ---------- addition, subtraction, conditional swap ----------

  lemma ModAdd(a: int, b: int, c: int)
    requires c == a + b
    ensures c % P == Add(a % P, b % P)
  {
    ModUnique(c, a % P + b % P, a / P + b / P);
  }

  lemma ModSub(a: int, b: int, c: int)
    requires c == a - b
    ensures c % P == Sub(a % P, b % P)
  {
    ModUnique(c, a % P - b % P, a / P - b / P);
  }

  lemma LimbRange(f: Limbs, b: nat, i: nat)
    requires Bounded(f, b) && i < 10
    ensures -2 * b <= f[i] <= 2 * b
  {}

  lemma AddBounded(f: Limbs, g: Limbs, h: Limbs, a: nat, b: nat)
    requires Bounded(f, a) && Bounded(g, b)
    requires forall i | 0 <= i < 10 :: h[i] == f[i] + g[i]
    ensures Bounded(h, a + b)
  {}

  lemma AddMeaning(f: Limbs, g: Limbs, h: Limbs, a: nat, b: nat)
    requires Bounded(f, a) && Bounded(g, b)
    requires forall i | 0 <= i < 10 :: h[i] == f[i] + g[i]
    ensures Bounded(h, a + b) && Eval(h) % P == Add(Eval(f) % P, Eval(g) % P)
  {
    AddBounded(f, g, h, a, b);
    EvalPlus(f, g, h);
    ModAdd(Eval(f), Eval(g), Eval(h));
  }

  method AddLimbs(h: array<int32>, f: array<int32>, g: array<int32>)
    requires h.Length == f.Length == g.Length == 10
    requires forall k | 0 <= k < 10 :: -0x80000000 <= (f[k] as int) + g[k] < 0x80000000
    modifies h
    ensures forall k | 0 <= k < 10 :: h[k] == old(f[k] as int) + old(g[k])
  {
    var i := 0;
    while i < 10
      invariant 0 <= i <= 10
      invariant forall k | i <= k < 10 :: f[k] == old(f[k]) && g[k] == old(g[k])
      invariant forall k | 0 <= k < i :: h[k] == old(f[k] as int) + old(g[k])
    {
      h[i] := (f[i] as int) + g[i];
      i := i + 1;
    }
  }

  method FeAdd(h: array<int32>, f: array<int32>, g: array<int32>, ghost a: nat, ghost b: nat)
    requires h.Length == f.Length == g.Length == 10
    requires Within(f, a) && Within(g, b) && a + b < 0x40000000
    modifies h
    ensures Within(h, a + b)
    ensures Value(h) == Add(old(Value(f)), old(Value(g)))
  {
    ghost var ff: Limbs, gg: Limbs := f[..], g[..];
    forall k | 0 <= k < 10
      ensures -0x80000000 <= (f[k] as int) + g[k] < 0x80000000
    {
      LimbRange(ff, a, k);
      LimbRange(gg, b, k);
    }
    AddLimbs(h, f, g);
    AddMeaning(ff, gg, h[..], a, b);
  }

  lemma SubBounded(f: Limbs, g: Limbs, h: Limbs, a: nat, b: nat)
    requires Bounded(f, a) && Bounded(g, b)
    requires forall i | 0 <= i < 10 :: h[i] == f[i] - g[i]
    ensures Bounded(h, a + b)
  {}

  lemma SubMeaning(f: Limbs, g: Limbs, h: Limbs, a: nat, b: nat)
    requires Bounded(f, a) && Bounded(g, b)
    requires forall i | 0 <= i < 10 :: h[i] == f[i] - g[i]
    ensures Bounded(h, a + b) && Eval(h) % P == Sub(Eval(f) % P, Eval(g) % P)
  {
    SubBounded(f, g, h, a, b);
    EvalMinus(f, g, h);
    ModSub(Eval(f), Eval(g), Eval(h));
  }

  method SubLimbs(h: array<int32>, f: array<int32>, g: array<int32>)
    requires h.Length == f.Length == g.Length == 10
    requires forall k | 0 <= k < 10 :: -0x80000000 <= (f[k] as int) - g[k] < 0x80000000
    modifies h
    ensures forall k | 0 <= k < 10 :: h[k] == old(f[k] as int) - old(g[k])
  {
    var i := 0;
    while i < 10
      invariant 0 <= i <= 10
      invariant forall k | i <= k < 10 :: f[k] == old(f[k]) && g[k] == old(g[k])
      invariant forall k | 0 <= k < i :: h[k] == old(f[k] as int) - old(g[k])
    {
      h[i] := (f[i] as int) - g[i];
      i := i + 1;
    }
  }

  method FeSub(h: array<int32>, f: array<int32>, g: array<int32>, ghost a: nat, ghost b: nat)
    requires h.Length == f.Length == g.Length == 10
    requires Within(f, a) && Within(g, b) && a + b < 0x40000000
    modifies h
    ensures Within(h, a + b)
    ensures Value(h) == Sub(old(Value(f)), old(Value(g)))
  {
    ghost var ff: Limbs, gg: Limbs := f[..], g[..];
    forall k | 0 <= k < 10
      ensures -0x80000000 <= (f[k] as int) - g[k] < 0x80000000
    {
      LimbRange(ff, a, k);
      LimbRange(gg, b, k);
    }
    SubLimbs(h, f, g);
    SubMeaning(ff, gg, h[..], a, b);
  }

  // Bitwise operations on the two's-complement pattern of a limb.

  function Unsigned(x: int32): nat { if x < 0 then x + 0x1_0000_0000 else x }

  function Signed(u: nat): int32
    requires u < 0x1_0000_0000
  {
    if u < 0x80000000 then u else u - 0x1_0000_0000
  }

  /** t = (f ^ g) & mask; f ^= t; g ^= t */
  method SwapLimb(f: int32, g: int32, mask: nat) returns (x: int32, y: int32)
    requires mask == 0 || mask == 0xFFFFFFFF
    ensures mask == 0 ==> x == f && y == g
    ensures mask != 0 ==> x == g && y == f
  {
    var a, b := Unsigned(f), Unsigned(g);
    Pow2Values();
    XorBelow(a, b, 32);
    AndMask(Xor(a, b), 32);
    XorCancel(a, b);
    XorSymmetric(a, b);
    XorCancel(b, a);
    XorZero(a);
    XorZero(b);
    var t := And(Xor(a, b), mask);
    x := Signed(Xor(a, t));
    y := Signed(Xor(b, t));
  }

  method FeCswap(f: array<int32>, g: array<int32>, b: nat)
    requires f.Length == g.Length == 10 && f != g
    requires b == 0 || b == 1
    modifies f, g
    ensures b == 0 ==> f[..] == old(f[..]) && g[..] == old(g[..])
    ensures b == 1 ==> f[..] == old(g[..]) && g[..] == old(f[..])
  {
    var mask := (0 - b) % 0x1_0000_0000;
    var i := 0;
    while i < 10
      invariant 0 <= i <= 10
      invariant forall k | i <= k < 10 :: f[k] == old(f[k]) && g[k] == old(g[k])
      invariant forall k | 0 <= k < i && b == 0 :: f[k] == old(f[k]) && g[k] == old(g[k])
      invariant forall k | 0 <= k < i && b == 1 :: f[k] == old(g[k]) && g[k] == old(f[k])
    {
      f[i], g[i] := SwapLimb(f[i], g[i], mask);
      i := i + 1;
    }
  }

  // ---------- multiplication by a24 ----------

  lemma ScaleBounded(f: Limbs, h: Limbs, b: nat)
    requires Bounded(f, b) && forall i | 0 <= i < 10 :: h[i] == 121665 * f[i]
    ensures Bounded(h, 121665 * b)
  {}

  method FeMul121665(h: array<int32>, f: array<int32>)
    requires h.Length == f.Length == 10 && Within(f, 2 * TIGHT)
    modifies h
    ensures Within(h, TIGHT)
    ensures Value(h) == Mul(121665, old(Value(f)))
  {
    var i := ScaleLimbs(f[..]);
    var t, m := CarryScaled(i);
    ModProduct(121665, Eval(f[..]), Eval(t), m);
    WidenLimbs(t);
    StoreLimbs(h, t);
  }

  method ScaleLimbs(f: seq<int32>) returns (h: seq<int64>)
    requires |f| == 10 && Bounded(f, 2 * TIGHT)
    ensures |h| == 10 && Eval(h) == 121665 * Eval(f) && Bounded(h, 121665 * (2 * TIGHT))
  {
    var h0: int64, h1: int64 := (f[0] as int) * 121665, (f[1] as int) * 121665;
    var h2: int64, h3: int64 := (f[2] as int) * 121665, (f[3] as int) * 121665;
    var h4: int64, h5: int64 := (f[4] as int) * 121665, (f[5] as int) * 121665;
    var h6: int64, h7: int64 := (f[6] as int) * 121665, (f[7] as int) * 121665;
    var h8: int64, h9: int64 := (f[8] as int) * 121665, (f[9] as int) * 121665;
    h := [h0, h1, h2, h3, h4, h5, h6, h7, h8, h9];
    EvalScale(121665, f, h);
    ScaleBounded(f, h, 2 * TIGHT);
  }

  // ---------- bytes ----------

  type uint32 = x: int | 0 <= x < 0x1_0000_0000

  /** Four bytes, little-endian. */
  function Word(s: seq<byte>, i: nat): (w: uint32)
    requires i + 4 <= |s|
  {
    s[i] + 0x100 * (s[i + 1] as int) + 0x10000 * (s[i + 2] as int) + 0x1000000 * (s[i + 3] as int)
  }

  lemma DecodeWord(s: seq<byte>)
    requires |s| >= 4
    ensures Decode(s) == Word(s, 0) + 0x1_0000_0000 * Decode(s[4..])
  {
    assert s[1..][1..] == s[2..] && s[2..][1..] == s[3..] && s[3..][1..] == s[4..];
    assert Decode(s) == s[0] + 256 * Decode(s[1..]);
    assert Decode(s[1..]) == s[1] + 256 * Decode(s[2..]);
    assert Decode(s[2..]) == s[2] + 256 * Decode(s[3..]);
    assert Decode(s[3..]) == s[3] + 256 * Decode(s[4..]);
  }

  lemma DecodeWords(s: seq<byte>, i: nat)
    requires i + 4 <= |s|
    ensures Decode(s[i..]) == Word(s, i) + 0x1_0000_0000 * Decode(s[i + 4..])
  {
    assert s[i..][4..] == s[i + 4..];
    DecodeWord(s[i..]);
  }

  lemma DecodeHalf(s: seq<byte>, i: nat)
    requires i + 16 <= |s|
    ensures Decode(s[i..]) == Word(s, i) + 0x1_0000_0000 * Word(s, i + 4) + 0x1_0000_0000_0000_0000 * Word(s, i + 8)
                            + 0x1_0000_0000_0000_0000_0000_0000 * Word(s, i + 12)
                            + 0x1_0000_0000_0000_0000_0000_0000_0000_0000 * Decode(s[i + 16..])
  {
    DecodeWords(s, i);
    DecodeWords(s, i + 4);
    DecodeWords(s, i + 8);
    DecodeWords(s, i + 12);
  }

  ghost function Words(w: seq<uint32>): int
    requires |w| == 8
  {
    w[0] + 0x1_0000_0000 * (w[1] as int) + 0x1_0000_0000_0000_0000 * (w[2] as int)
    + 0x1_0000_0000_0000_0000_0000_0000 * (w[3] as int)
    + 0x1_0000_0000_0000_0000_0000_0000_0000_0000 * (w[4] as int)
    + 0x1_0000_0000_0000_0000_0000_0000_0000_0000_0000_0000 * (w[5] as int)
    + 0x1_0000_0000_0000_0000_0000_0000_0000_0000_0000_0000_0000_0000 * (w[6] as int)
    + 0x1_0000_0000_0000_0000_0000_0000_0000_0000_0000_0000_0000_0000_0000_0000 * (w[7] as int)
  }

  lemma DecodeAll(s: seq<byte>)
    requires |s| == 32
    ensures Decode(s) == Words([Word(s, 0), Word(s, 4), Word(s, 8), Word(s, 12),
                                Word(s, 16), Word(s, 20), Word(s, 24), Word(s, 28)])
  {
    DecodeHalf(s, 0);
    DecodeHalf(s, 16);
    assert s[0..] == s && s[32..] == [];
  }

  /** Of a word y shifted left past bit 32, the part below b * c. */
  lemma LowBits(y: nat, a: nat, b: nat, c: nat, d: nat)
    requires a > 0 && b > 0 && c > 0 && a == c * d
    ensures (y * b) % (a * b) == b * (y % a)
    ensures (y % a) % c == y % c
  {
    var q, r := y / a, y % a;
    assert y * b == (a * b) * q + b * r;
    assert b * r < a * b by { assert b * r <= b * (a - 1); }
    DivMod(y * b, a * b, q, b * r);
    assert y == c * (d * q + r / c) + r % c;
    DivMod(y, c, d * q + r / c, r % c);
  }

  lemma SplitBits(x: nat, y: nat, b: nat, c: nat)
    requires b > 0 && c > 0 && x < b
    ensures (x + b * y) % (b * c) == x + b * (y % c)
  {
    var q, r := y / c, y % c;
    assert x + b * y == (b * c) * q + (x + b * r);
    assert b * r <= b * (c - 1);
    DivMod(x + b * y, b * c, q, x + b * r);
  }

  lemma StraddleValue(lo: nat, a: nat, hi: nat, b: nat, c: nat, d: nat)
    requires a > 0 && b > 0 && c > 0 && lo < a * b && a == c * d
    ensures (lo / a + (hi * b) % (a * b)) % (b * c) == lo / a + b * (hi % c)
  {
    assert lo / a < b;
    LowBits(hi, a, b, c, d);
    SplitBits(lo / a, hi % a, b, c);
  }

  ghost predicate PowerOf2(b: nat) { exists n: nat :: Pow2(n) == b }

  lemma PowersOf2()
    ensures PowerOf2(0x40) && PowerOf2(0x80) && PowerOf2(0x1000) && PowerOf2(0x2000) && PowerOf2(0x80000) && PowerOf2(0x100000)
    ensures PowerOf2(0x2000000) && PowerOf2(0x4000000)
  {
    assert Pow2(6) == 0x40 && Pow2(7) == 0x80;
    Pow2Add(6, 6);
    Pow2Add(6, 7);
    Pow2Add(13, 6);
    Pow2Add(13, 7);
    Pow2Add(12, 13);
    Pow2Add(13, 13);
    assert Pow2(12) == 0x1000 && Pow2(13) == 0x2000 && Pow2(19) == 0x80000 && Pow2(20) == 0x100000 && Pow2(25) == 0x2000000 && Pow2(26) == 0x4000000;
  }

  /** An OR of numbers without common bits. */
  lemma OrIs(x: nat, y: nat, b: nat)
    requires PowerOf2(b) && x < b
    ensures Or(x, b * y) == x + b * y
  {
    var n: nat :| Pow2(n) == b;
    OrJoin(x, y, n);
  }

  /** ((lo >> k) | (hi << (32 - k))) & (m - 1) for a == 2^k, b == 2^(32 - k) and m == b * c: the bits of lo from k up,
      then the low bits of hi. The operands of the OR have no bit in common. */
  method Straddle(lo: uint32, a: nat, hi: uint32, b: nat, m: nat, ghost c: nat, ghost d: nat) returns (r: int32)
    requires a > 0 && c > 0 && a * b == 0x1_0000_0000 && a == c * d && m == b * c <= 0x80000000 && PowerOf2(b)
    ensures r == lo / a + b * (hi % c)
    ensures 0 <= r < m
  {
    StraddleValue(lo, a, hi, b, c, d);
    StraddleOr(lo, a, hi, b);
    r := Or(lo / a, (hi * b) % 0x1_0000_0000) % m;
  }

  lemma StraddleOr(lo: nat, a: nat, hi: nat, b: nat)
    requires a > 0 && a * b == 0x1_0000_0000 && lo < 0x1_0000_0000 && PowerOf2(b)
    ensures Or(lo / a, (hi * b) % 0x1_0000_0000) == lo / a + (hi * b) % 0x1_0000_0000
  {
    assert lo / a < b;
    LowBits(hi, a, b, 1, a);
    OrIs(lo / a, hi % a, b);
  }

  /** Limbs that are proper digits of 26 and 25 bits. */
  ghost predicate Digits(r: Limbs)
  {
    && 0 <= r[0] < 0x4000000 && 0 <= r[1] < 0x2000000 && 0 <= r[2] < 0x4000000 && 0 <= r[3] < 0x2000000
    && 0 <= r[4] < 0x4000000 && 0 <= r[5] < 0x2000000 && 0 <= r[6] < 0x4000000 && 0 <= r[7] < 0x2000000
    && 0 <= r[8] < 0x4000000 && 0 <= r[9] < 0x2000000
  }

  lemma DigitsBelow(r: Limbs)
    requires Digits(r)
    ensures 0 <= Eval(r) < 0x8000000000000000000000000000000000000000000000000000000000000000
  {}

  /** How fe_load cuts the first four and the last four words at the limb boundaries. */
  lemma LoadLow(w: seq<uint32>, h: Limbs)
    requires |w| == 8
    requires h[0] == w[0] % 0x4000000
    requires h[1] == w[0] / 0x4000000 + 0x40 * (w[1] % 0x80000)
    requires h[2] == w[1] / 0x80000 + 0x2000 * (w[2] % 0x2000)
    requires h[3] == w[2] / 0x2000 + 0x80000 * (w[3] % 0x40)
    requires h[4] == w[3] / 0x40
    ensures h[0] + 0x4000000 * h[1] + 0x8000000000000 * h[2] + 0x20000000000000000000 * h[3]
            + 0x40000000000000000000000000 * h[4]
         == w[0] + 0x1_0000_0000 * (w[1] as int) + 0x1_0000_0000_0000_0000 * (w[2] as int)
            + 0x1_0000_0000_0000_0000_0000_0000 * (w[3] as int)
  {}

  lemma LoadHigh(w: seq<uint32>, h: Limbs)
    requires |w| == 8
    requires h[5] == w[4] % 0x2000000
    requires h[6] == w[4] / 0x2000000 + 0x80 * (w[5] % 0x80000)
    requires h[7] == w[5] / 0x80000 + 0x2000 * (w[6] % 0x1000)
    requires h[8] == w[6] / 0x1000 + 0x100000 * (w[7] % 0x40)
    requires h[9] == w[7] / 0x40 % 0x2000000
    ensures h[5] + 0x2000000 * h[6] + 0x8000000000000 * h[7] + 0x10000000000000000000 * h[8]
            + 0x40000000000000000000000000 * h[9]
         == w[4] + 0x1_0000_0000 * (w[5] as int) + 0x1_0000_0000_0000_0000 * (w[6] as int)
            + 0x1_0000_0000_0000_0000_0000_0000 * (w[7] as int - 0x80000000 * (w[7] as int / 0x80000000))
  {
    assert w[7] == w[7] % 0x40 + 0x40 * h[9] + 0x80000000 * (w[7] as int / 0x80000000);
  }

  lemma LoadEval(w: seq<uint32>, h: Limbs)
    requires |w| == 8
    requires h[0] + 0x4000000 * h[1] + 0x8000000000000 * h[2] + 0x20000000000000000000 * h[3]
             + 0x40000000000000000000000000 * h[4]
          == w[0] + 0x1_0000_0000 * (w[1] as int) + 0x1_0000_0000_0000_0000 * (w[2] as int)
             + 0x1_0000_0000_0000_0000_0000_0000 * (w[3] as int)
    requires h[5] + 0x2000000 * h[6] + 0x8000000000000 * h[7] + 0x10000000000000000000 * h[8]
             + 0x40000000000000000000000000 * h[9]
          == w[4] + 0x1_0000_0000 * (w[5] as int) + 0x1_0000_0000_0000_0000 * (w[6] as int)
             + 0x1_0000_0000_0000_0000_0000_0000 * (w[7] as int - 0x80000000 * (w[7] as int / 0x80000000))
    requires Digits(h)
    ensures Eval(h) == Words(w) % 0x8000000000000000000000000000000000000000000000000000000000000000
  {
    DigitsBelow(h);
    DivMod(Words(w), 0x8000000000000000000000000000000000000000000000000000000000000000, w[7] as int / 0x80000000, Eval(h));
  }

  lemma DigitsBounded(h: Limbs)
    requires Digits(h)
    ensures Bounded(h, LOOSE)
  {}

  method LoadLimbs(w: seq<uint32>) returns (h: seq<int32>)
    requires |w| == 8
    ensures |h| == 10 && Digits(h)
    ensures Eval(h) == Words(w) % 0x8000000000000000000000000000000000000000000000000000000000000000
  {
    PowersOf2();
    var h0, h5, h9 := w[0] % 0x4000000, w[4] % 0x2000000, w[7] / 0x40 % 0x2000000;
    var h1 := Straddle(w[0], 0x4000000, w[1], 0x40, 0x2000000, 0x80000, 0x80);
    var h2 := Straddle(w[1], 0x80000, w[2], 0x2000, 0x4000000, 0x2000, 0x40);
    var h3 := Straddle(w[2], 0x2000, w[3], 0x80000, 0x2000000, 0x40, 0x80);
    var h4 := Straddle(w[3], 0x40, w[4], 0x4000000, 0x4000000, 1, 0x40);
    var h6 := Straddle(w[4], 0x2000000, w[5], 0x80, 0x4000000, 0x80000, 0x40);
    var h7 := Straddle(w[5], 0x80000, w[6], 0x2000, 0x2000000, 0x1000, 0x80);
    var h8 := Straddle(w[6], 0x1000, w[7], 0x100000, 0x4000000, 0x40, 0x40);
    h := [h0, h1, h2, h3, h4, h5, h6, h7, h8, h9];
    LoadLow(w, h);
    LoadHigh(w, h);
    LoadEval(w, h);
  }

  method FeLoad(h: array<int32>, s: array<byte>)
    requires h.Length == 10 && s.Length == 32
    modifies h
    ensures Within(h, LOOSE)
    ensures Eval(h[..]) == Decode(s[..]) % 0x8000000000000000000000000000000000000000000000000000000000000000
  {
    DecodeAll(s[..]);
    var t := LoadLimbs([Word(s[..], 0), Word(s[..], 4), Word(s[..], 8), Word(s[..], 12),
                        Word(s[..], 16), Word(s[..], 20), Word(s[..], 24), Word(s[..], 28)]);
    DigitsBounded(t);
    WidenLimbs(t);
    StoreLimbs(h, t);
  }

  // ---------- canonical encoding ----------

  method Shr26(x: int32) returns (q: int32)
    ensures 0 <= x - 0x4000000 * (q as int) < 0x4000000
  {
    q := x / 0x4000000;
  }

  method Shr25(x: int32) returns (q: int32)
    ensures 0 <= x - 0x2000000 * (q as int) < 0x2000000
  {
    q := x / 0x2000000;
  }

  /** The ten-step estimate of fe_store, as one division. */
  method Quotient(h: seq<int32>) returns (q: int32, ghost e: int)
    requires |h| == 10 && Bounded(h, TIGHT)
    ensures 0 <= 19 * (h[9] as int) + 0x1000000 - 0x2000000 * e < 0x2000000
    ensures 0 <= Eval(h) + e - 0x8000000000000000000000000000000000000000000000000000000000000000 * (q as int)
              < 0x8000000000000000000000000000000000000000000000000000000000000000
    ensures -3 <= q <= 3
  {
    q := Shr25(19 * h[9] + 0x1000000);
    e := q;
    q := Shr26(h[0] + q); q := Shr25(h[1] + q); q := Shr26(h[2] + q); q := Shr25(h[3] + q);
    q := Shr26(h[4] + q); q := Shr25(h[5] + q); q := Shr26(h[6] + q); q := Shr25(h[7] + q);
    q := Shr26(h[8] + q); q := Shr25(h[9] + q);
  }

  /** The estimate is the exact quotient by P: the limb h9 determines 19 * quotient closely enough. */
  lemma QuotientExact(h: Limbs, q: int, e: int)
    requires Bounded(h, TIGHT)
    requires 0 <= 19 * h[9] + 0x1000000 - 0x2000000 * e < 0x2000000
    requires 0 <= Eval(h) + e - 0x8000000000000000000000000000000000000000000000000000000000000000 * q
               < 0x8000000000000000000000000000000000000000000000000000000000000000
    requires -3 <= q <= 3
    ensures 0 <= Eval(h) - 0x7fffffffffffffffffffffffffffffffffffffffffffffffffffffffffffffed * q
               < 0x7fffffffffffffffffffffffffffffffffffffffffffffffffffffffffffffed
  {}

  /** The final carry pass, which drops the carry out of h9. */
  method Reduce(h: seq<int32>, q: int32) returns (r: seq<int32>, ghost d: int)
    requires |h| == 10 && Bounded(h, TIGHT) && -3 <= q <= 3
    ensures |r| == 10 && Digits(r)
    ensures Eval(r) == Eval(h) + 19 * (q as int)
                     - 0x8000000000000000000000000000000000000000000000000000000000000000 * d
  {
    var h0, h1, h2, h3, h4 := h[0] + 19 * q, h[1], h[2], h[3], h[4];
    var h5, h6, h7, h8, h9 := h[5], h[6], h[7], h[8], h[9];
    var c: int32;
    c := Shr26(h0); h1 := h1 + c; h0 := h0 - c * 0x4000000;
    c := Shr25(h1); h2 := h2 + c; h1 := h1 - c * 0x2000000;
    c := Shr26(h2); h3 := h3 + c; h2 := h2 - c * 0x4000000;
    c := Shr25(h3); h4 := h4 + c; h3 := h3 - c * 0x2000000;
    c := Shr26(h4); h5 := h5 + c; h4 := h4 - c * 0x4000000;
    c := Shr25(h5); h6 := h6 + c; h5 := h5 - c * 0x2000000;
    c := Shr26(h6); h7 := h7 + c; h6 := h6 - c * 0x4000000;
    c := Shr25(h7); h8 := h8 + c; h7 := h7 - c * 0x2000000;
    c := Shr26(h8); h9 := h9 + c; h8 := h8 - c * 0x4000000;
    c := Shr25(h9); h9 := h9 - c * 0x2000000;
    d := c;
    r := [h0, h1, h2, h3, h4, h5, h6, h7, h8, h9];
  }

  lemma PackValue(x: nat, hi: nat, b: nat, c: nat)
    requires b > 0 && c > 0 && x < b
    ensures (hi * b) % (b * c) == b * (hi % c)
    ensures x + b * (hi % c) < b * c
  {
    LowBits(hi, c, b, 1, c);
    assert b * (hi % c) <= b * (c - 1);
  }

  /** (lo >> k) | (hi << (32 - j)) as a 32-bit word, for a == 2^k, b == 2^(32 - j) and c == 2^j. */
  method Pack(lo: uint32, a: nat, hi: uint32, b: nat, ghost c: nat) returns (t: uint32)
    requires a > 0 && c > 0 && b * c == 0x1_0000_0000 && lo / a < b && PowerOf2(b)
    ensures t == lo / a + b * (hi % c)
  {
    PackValue(lo / a, hi, b, c);
    OrIs(lo / a, hi % c, b);
    t := Or(lo / a, (hi * b) % 0x1_0000_0000);
  }

  lemma PackWords(r: Limbs, t: seq<uint32>)
    requires Digits(r) && |t| == 8
    requires t[0] == r[0] + 0x4000000 * (r[1] % 0x40)
    requires t[1] == r[1] / 0x40 + 0x80000 * (r[2] % 0x2000)
    requires t[2] == r[2] / 0x2000 + 0x2000 * (r[3] % 0x80000)
    requires t[3] == r[3] / 0x80000 + 0x40 * r[4]
    requires t[4] == r[5] + 0x2000000 * (r[6] % 0x80)
    requires t[5] == r[6] / 0x80 + 0x80000 * (r[7] % 0x2000)
    requires t[6] == r[7] / 0x2000 + 0x1000 * (r[8] % 0x100000)
    requires t[7] == r[8] / 0x100000 + 0x40 * r[9]
    ensures Words(t) == Eval(r)
  {}

  method Words8(r: seq<int32>) returns (t: seq<uint32>)
    requires |r| == 10 && Digits(r)
    ensures |t| == 8 && Words(t) == Eval(r)
  {
    PowersOf2();
    var t0 := Pack(r[0], 1, r[1], 0x4000000, 0x40);
    var t1 := Pack(r[1], 0x40, r[2], 0x80000, 0x2000);
    var t2 := Pack(r[2], 0x2000, r[3], 0x2000, 0x80000);
    var t3 := Pack(r[3], 0x80000, r[4], 0x40, 0x4000000);
    var t4 := Pack(r[5], 1, r[6], 0x2000000, 0x80);
    var t5 := Pack(r[6], 0x80, r[7], 0x80000, 0x2000);
    var t6 := Pack(r[7], 0x2000, r[8], 0x1000, 0x100000);
    var t7 := Pack(r[8], 0x100000, r[9], 0x40, 0x4000000);
    t := [t0, t1, t2, t3, t4, t5, t6, t7];
    PackWords(r, t);
  }

  lemma Bytes(t: uint32)
    ensures t == t % 256 + 0x100 * (t / 0x100 % 256) + 0x10000 * (t / 0x10000 % 256)
               + 0x1000000 * (t / 0x1000000 % 256)
  {}

  method StoreWord(s: array<byte>, i: nat, t: uint32)
    requires i + 4 <= s.Length
    modifies s
    ensures Word(s[..], i) == t
    ensures forall j | 0 <= j && j + 4 <= s.Length && (j + 4 <= i || i + 4 <= j) ::
              Word(s[..], j) == old(Word(s[..], j))
  {
    Bytes(t);
    s[i], s[i + 1], s[i + 2], s[i + 3] := t % 256, t / 0x100 % 256, t / 0x10000 % 256, t / 0x1000000 % 256;
  }

  method Canonical(h: seq<int32>) returns (r: seq<int32>)
    requires |h| == 10 && Bounded(h, TIGHT)
    ensures |r| == 10 && Digits(r) && Eval(r) == Eval(h) % P
  {
    var q, e := Quotient(h);
    QuotientExact(h, q, e);
    ghost var d;
    r, d := Reduce(h, q);
    DigitsBelow(r);
    SameResidue(Eval(h), Eval(r), q, d);
  }

  lemma SameResidue(x: int, y: int, q: int, d: int)
    requires 0 <= x - 0x7fffffffffffffffffffffffffffffffffffffffffffffffffffffffffffffed * q
               < 0x7fffffffffffffffffffffffffffffffffffffffffffffffffffffffffffffed
    requires y == x + 19 * q - 0x8000000000000000000000000000000000000000000000000000000000000000 * d
    requires 0 <= y < 0x8000000000000000000000000000000000000000000000000000000000000000
    ensures y == x % P
  {
    assert d == q;
    ModUnique(x, y, q);
  }

  lemma DecodeIs(s: seq<byte>, t: seq<uint32>)
    requires |s| == 32 && |t| == 8
    requires Word(s, 0) == t[0] && Word(s, 4) == t[1] && Word(s, 8) == t[2] && Word(s, 12) == t[3]
    requires Word(s, 16) == t[4] && Word(s, 20) == t[5] && Word(s, 24) == t[6] && Word(s, 28) == t[7]
    ensures Decode(s) == Words(t)
  {
    DecodeAll(s);
    assert t == [t[0], t[1], t[2], t[3], t[4], t[5], t[6], t[7]];
  }

  method StoreHalf(s: array<byte>, i: nat, t: seq<uint32>)
    requires i + 16 <= s.Length && |t| == 4
    modifies s
    ensures Word(s[..], i) == t[0] && Word(s[..], i + 4) == t[1] && Word(s[..], i + 8) == t[2] && Word(s[..], i + 12) == t[3]
    ensures forall j | 0 <= j && j + 4 <= i :: Word(s[..], j) == old(Word(s[..], j))
  {
    StoreWord(s, i, t[0]);
    StoreWord(s, i + 4, t[1]);
    StoreWord(s, i + 8, t[2]);
    StoreWord(s, i + 12, t[3]);
  }

  method StoreWords(s: array<byte>, t: seq<uint32>)
    requires s.Length == 32 && |t| == 8
    modifies s
    ensures Decode(s[..]) == Words(t)
  {
    StoreHalf(s, 0, t[..4]);
    StoreHalf(s, 16, t[4..]);
    DecodeIs(s[..], t);
  }

  method FeStore(s: array<byte>, h: array<int32>)
    requires s.Length == 32 && h.Length == 10 && Within(h, TIGHT)
    modifies s
    ensures Decode(s[..]) == Value(h)
  {
    var r := Canonical(h[..]);
    var t := Words8(r);
    StoreWords(s, t);
  }
}
