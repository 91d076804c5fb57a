/** The scalar multiplication of kernel/net/tls.c: inversion by an addition chain and the 255-step ladder. */
module X25519 {
  import opened Bits
  import opened Rfc7748
  import opened Field25519

  // ---------- powers modulo P ----------

  lemma MulAssoc(a: int, b: int, c: int)
    ensures Mul(Mul(a, b), c) == Mul(a, Mul(b, c))
  {
    var x, y := a * b, b * c;
    ModUnique((x % P) * c, x * c, -(x / P) * c);
    ModUnique(a * (y % P), a * y, -(y / P) * a);
    assert x * c == a * y;
  }

  lemma {:induction false} PowRange(a: int, n: nat)
    ensures 0 <= Pow(a, n) < P
  {}

  lemma {:induction false} PowAdd(a: int, m: nat, n: nat)
    ensures Mul(Pow(a, m), Pow(a, n)) == Pow(a, m + n)
  {
    if m == 0 {
      PowRange(a, n);
    } else {
      PowAdd(a, m - 1, n);
      MulAssoc(a, Pow(a, m - 1), Pow(a, n));
    }
  }

  lemma PowOne(a: int)
    requires 0 <= a < P
    ensures Pow(a, 1) == a
  {
    assert Pow(a, 1) == Mul(a, Pow(a, 0)) == (a * 1) % P;
  }

  /** e doubled n times. */
  function Doubled(e: nat, n: nat): nat
  {
    if n == 0 then e else 2 * Doubled(e, n - 1)
  }

  method FeSq(h: array<int32>, f: array<int32>, ghost z: int, ghost e: nat)
    requires h.Length == f.Length == 10 && Within(f, TIGHT) && Value(f) == Pow(z, e)
    modifies h
    ensures Within(h, TIGHT) && Value(h) == Pow(z, 2 * e)
  {
    WidenLimbs(f[..]);
    PowAdd(z, e, e);
    FeMul(h, f, f);
  }

  /** fe_sq(t, t), n times. */
  method SquareTimes(t: array<int32>, n: nat, ghost z: int, ghost e: nat)
    requires t.Length == 10 && Within(t, TIGHT) && Value(t) == Pow(z, e)
    modifies t
    ensures Within(t, TIGHT) && Value(t) == Pow(z, Doubled(e, n))
  {
    var i := 0;
    while i < n
      invariant 0 <= i <= n
      invariant Within(t, TIGHT) && Value(t) == Pow(z, Doubled(e, i))
    {
      FeSq(t, t, z, Doubled(e, i));
      i := i + 1;
    }
  }

  /** The limbs of a hold z^e. */
  ghost predicate IsPow(a: array<int32>, z: int, e: nat)
    reads a
  {
    a.Length == 10 && Within(a, TIGHT) && Value(a) == Pow(z, e)
  }

  method MulPow(h: array<int32>, f: array<int32>, g: array<int32>, ghost z: int, ghost d: nat, ghost e: nat)
    requires h.Length == 10 && IsPow(f, z, d) && IsPow(g, z, e)
    modifies h
    ensures IsPow(h, z, d + e)
  {
    WidenLimbs(f[..]);
    WidenLimbs(g[..]);
    PowAdd(z, d, e);
    FeMul(h, f, g);
  }

  lemma {:induction false} DoubledAdd(e: nat, m: nat, n: nat)
    ensures Doubled(e, m + n) == Doubled(Doubled(e, m), n)
  {
    if n > 0 { DoubledAdd(e, m, n - 1); }
  }

  lemma Doubled10(e: nat)
    ensures Doubled(e, 10) == 0x400 * e
  {
    assert Doubled(e, 2) == 4 * Doubled(e, 0);
    assert Doubled(e, 4) == 4 * Doubled(e, 2);
    assert Doubled(e, 6) == 4 * Doubled(e, 4);
    assert Doubled(e, 8) == 4 * Doubled(e, 6);
  }

  lemma Doubled50(e: nat)
    ensures Doubled(e, 50) == 0x4000000000000 * e
  {
    Doubled10(e);
    DoubledAdd(e, 10, 10);
    Doubled10(0x400 * e);
    DoubledAdd(e, 20, 10);
    Doubled10(0x100000 * e);
    DoubledAdd(e, 30, 10);
    Doubled10(0x40000000 * e);
    DoubledAdd(e, 40, 10);
    Doubled10(0x10000000000 * e);
  }

  /** The exponents reached by the squaring runs of fe_invert. */
  lemma Exponents()
    ensures Doubled(11, 1) == 22
    ensures Doubled(0x1f, 5) == 0x3e0
    ensures Doubled(0x3ff, 10) == 0xffc00
    ensures Doubled(0xfffff, 20) == 0xfffff00000
    ensures Doubled(0xffffffffff, 10) == 0x3fffffffffc00
    ensures Doubled(0x3ffffffffffff, 50) == 0xffffffffffffc000000000000
    ensures Doubled(0xfffffffffffffffffffffffff, 100) == 0xfffffffffffffffffffffffff0000000000000000000000000
    ensures Doubled(0xffffffffffffffffffffffffffffffffffffffffffffffffff, 50) == 0x3fffffffffffffffffffffffffffffffffffffffffffffffffc000000000000
    ensures Doubled(0x3ffffffffffffffffffffffffffffffffffffffffffffffffffffffffffffff, 5) == 0x7fffffffffffffffffffffffffffffffffffffffffffffffffffffffffffffe0
  {
    Doubled10(0x3ff);
    Doubled10(0xfffff);
    DoubledAdd(0xfffff, 10, 10);
    Doubled10(0x3ffffc00);
    Doubled10(0xffffffffff);
    Doubled50(0x3ffffffffffff);
    DoubledAdd(0xfffffffffffffffffffffffff, 50, 50);
    Doubled50(0xfffffffffffffffffffffffff);
    Doubled50(0x3ffffffffffffffffffffffffc000000000000);
    Doubled50(0xffffffffffffffffffffffffffffffffffffffffffffffffff);
  }

  /** A run of n squarings of f, then one multiplication: h = f^(2^n) * g. */
  method SquareMul(h: array<int32>, f: array<int32>, n: nat, g: array<int32>,
                   ghost z: int, ghost d: nat, ghost e: nat, ghost r: nat)
    requires h.Length == 10 && IsPow(f, z, d) && IsPow(g, z, e) && n > 0 && Doubled(d, n) + e == r
    modifies h
    ensures IsPow(h, z, r)
  {
    var t := new int32[10];
    FeSq(t, f, z, d);
    SquareTimes(t, n - 1, z, 2 * d);
    DoubledAdd(d, 1, n - 1);
    MulPow(h, t, g, z, Doubled(d, n), e);
  }

  /** z^9 and z^11. */
  method InvertFront(z1: array<int32>, z9: array<int32>, z11: array<int32>, ghost z: int)
    requires IsPow(z1, z, 1) && z9.Length == z11.Length == 10
    requires z1 != z9 && z1 != z11 && z9 != z11
    modifies z9, z11
    ensures IsPow(z9, z, 9) && IsPow(z11, z, 11)
  {
    var z2 := new int32[10];
    FeSq(z2, z1, z, 1);
    FeSq(z9, z2, z, 2);
    FeSq(z9, z9, z, 4);
    MulPow(z9, z9, z1, z, 8, 1);
    MulPow(z11, z9, z2, z, 9, 2);
  }

  /** From z^9 and z^11 by way of z^(2^5 - 1), z^(2^10 - 1), z^(2^20 - 1), z^(2^40 - 1) to z^(2^50 - 1). */
  method InvertMiddle(z50: array<int32>, z9: array<int32>, z11: array<int32>, ghost z: int)
    requires IsPow(z9, z, 9) && IsPow(z11, z, 11) && z50.Length == 10 && z50 != z9 && z50 != z11
    modifies z50
    ensures IsPow(z50, z, 0x3ffffffffffff)
  {
    Exponents();
    var z5, z10, z20, t := new int32[10], new int32[10], new int32[10], new int32[10];
    SquareMul(z5, z11, 1, z9, z, 11, 9, 0x1f);
    SquareMul(z10, z5, 5, z5, z, 0x1f, 0x1f, 0x3ff);
    SquareMul(z20, z10, 10, z10, z, 0x3ff, 0x3ff, 0xfffff);
    SquareMul(t, z20, 20, z20, z, 0xfffff, 0xfffff, 0xffffffffff);
    SquareMul(z50, t, 10, z10, z, 0xffffffffff, 0x3ff, 0x3ffffffffffff);
  }

  /** By way of z^(2^100 - 1), z^(2^200 - 1) and z^(2^250 - 1) to z^(2^255 - 21). */
  method InvertBack(out: array<int32>, z50: array<int32>, z11: array<int32>, ghost z: int)
    requires IsPow(z50, z, 0x3ffffffffffff) && IsPow(z11, z, 11)
    requires out.Length == 10 && out != z50 && out != z11
    modifies out
    ensures IsPow(out, z, 0x7fffffffffffffffffffffffffffffffffffffffffffffffffffffffffffffeb)
  {
    Exponents();
    var t := new int32[10];
    SquareMul(t, z50, 50, z50, z, 0x3ffffffffffff, 0x3ffffffffffff, 0xfffffffffffffffffffffffff);
    SquareMul(t, t, 100, t, z, 0xfffffffffffffffffffffffff, 0xfffffffffffffffffffffffff, 0xffffffffffffffffffffffffffffffffffffffffffffffffff);
    SquareMul(t, t, 50, z50, z, 0xffffffffffffffffffffffffffffffffffffffffffffffffff, 0x3ffffffffffff, 0x3ffffffffffffffffffffffffffffffffffffffffffffffffffffffffffffff);
    SquareMul(out, t, 5, z11, z, 0x3ffffffffffffffffffffffffffffffffffffffffffffffffffffffffffffff, 11, 0x7fffffffffffffffffffffffffffffffffffffffffffffffffffffffffffffeb);
  }

  /** fe_invert: z^(P - 2). */
  method FeInvert(out: array<int32>, z: array<int32>)
    requires out.Length == z.Length == 10 && Within(z, TIGHT)
    modifies out
    ensures Within(out, TIGHT) && Value(out) == Pow(old(Value(z)), P - 2)
  {
    ghost var v := Value(z);
    var z1, z9 := new int32[10], new int32[10];
    var z11, z50 := new int32[10], new int32[10];
    Copy(z1, z);
    PowOne(v);
    InvertFront(z1, z9, z11, v);
    InvertMiddle(z50, z9, z11, v);
    InvertBack(out, z50, z11, v);
  }

  /** memcpy of one field element. */
  method Copy(h: array<int32>, f: array<int32>)
    requires h.Length == f.Length == 10 && h != f
    modifies h
    ensures h[..] == f[..]
  {
    var i := 0;
    while i < 10
      invariant 0 <= i <= 10 && forall k | 0 <= k < i :: h[k] == f[k]
    {
      h[i] := f[i];
      i := i + 1;
    }
  }

  // ---------- one ladder step ----------

  lemma Widens(f: Limbs, a: int, b: int)
    requires Bounded(f, a) && 0 <= a <= b
    ensures Bounded(f, b)
  {}

  /** The limbs of a are within b and hold the residue v. */
  ghost predicate Rep(a: array<int32>, b: int, v: int)
    reads a
  {
    a.Length == 10 && Within(a, b) && Value(a) == v
  }

  method AddRep(h: array<int32>, f: array<int32>, g: array<int32>, ghost a: nat, ghost b: nat, ghost c: nat, ghost x: int, ghost y: int)
    requires h.Length == 10 && Rep(f, a, x) && Rep(g, b, y) && a + b <= c < 0x40000000
    modifies h
    ensures Rep(h, c, Add(x, y))
  {
    FeAdd(h, f, g, a, b);
    Widens(h[..], a + b, c);
  }

  method SubRep(h: array<int32>, f: array<int32>, g: array<int32>, ghost a: nat, ghost b: nat, ghost c: nat, ghost x: int, ghost y: int)
    requires h.Length == 10 && Rep(f, a, x) && Rep(g, b, y) && a + b <= c < 0x40000000
    modifies h
    ensures Rep(h, c, Sub(x, y))
  {
    FeSub(h, f, g, a, b);
    Widens(h[..], a + b, c);
  }

  method MulRep(h: array<int32>, f: array<int32>, g: array<int32>, ghost a: nat, ghost b: nat, ghost x: int, ghost y: int)
    requires h.Length == 10 && Rep(f, a, x) && Rep(g, b, y) && a <= WIDE && b <= WIDE
    modifies h
    ensures Rep(h, TIGHT, Mul(x, y))
  {
    Widens(f[..], a, WIDE);
    Widens(g[..], b, WIDE);
    FeMul(h, f, g);
  }

  /** The ladder state held in four field elements. */
  ghost predicate RepState(x2: array<int32>, z2: array<int32>, x3: array<int32>, z3: array<int32>, s: Ladder)
    reads x2, z2, x3, z3
  {
    Rep(x2, LOOSE, s.x2) && Rep(z2, TIGHT, s.z2) && Rep(x3, LOOSE, s.x3) && Rep(z3, TIGHT, s.z3)
  }

  ghost predicate Apart(x2: array<int32>, z2: array<int32>, x3: array<int32>, z3: array<int32>)
  {
    x2 != z2 && x2 != x3 && x2 != z3 && z2 != x3 && z2 != z3 && x3 != z3
  }

  /** A = x2 + z2, AA = A^2, B = x2 - z2, BB = B^2, E = AA - BB. */
  method StepSquares(A: array<int32>, AA: array<int32>, B: array<int32>, BB: array<int32>, E: array<int32>,
                     x2: array<int32>, z2: array<int32>, ghost vx: int, ghost vz: int, ghost a: int, ghost b: int)
    requires A.Length == AA.Length == B.Length == BB.Length == E.Length == 10
    requires A != AA && A != B && A != BB && A != E && AA != B && AA != BB && AA != E && B != BB && B != E && BB != E
    requires x2 !in {A, AA, B, BB, E} && z2 !in {A, AA, B, BB, E}
    requires Rep(x2, LOOSE, vx) && Rep(z2, TIGHT, vz) && a == Add(vx, vz) && b == Sub(vx, vz)
    modifies A, AA, B, BB, E
    ensures Rep(A, WIDE, a) && Rep(B, WIDE, b) && Rep(AA, TIGHT, Mul(a, a)) && Rep(BB, TIGHT, Mul(b, b))
    ensures Rep(E, 2 * TIGHT, Sub(Mul(a, a), Mul(b, b)))
  {
    AddRep(A, x2, z2, LOOSE, TIGHT, WIDE, vx, vz);
    MulRep(AA, A, A, WIDE, WIDE, a, a);
    SubRep(B, x2, z2, LOOSE, TIGHT, WIDE, vx, vz);
    MulRep(BB, B, B, WIDE, WIDE, b, b);
    SubRep(E, AA, BB, TIGHT, TIGHT, 2 * TIGHT, Mul(a, a), Mul(b, b));
  }

  /** C = x3 + z3, D = x3 - z3, DA = D * A, CB = C * B, x3 = (DA + CB)^2, z3 = x1 * (DA - CB)^2. */
  method StepSum(x1: array<int32>, x3: array<int32>, z3: array<int32>, A: array<int32>, B: array<int32>,
                 ghost u: int, ghost vx: int, ghost vz: int, ghost a: int, ghost b: int)
    requires x3 != z3 && x1 !in {x3, z3} && A !in {x3, z3} && B !in {x3, z3}
    requires Rep(x1, LOOSE, u) && Rep(x3, LOOSE, vx) && Rep(z3, TIGHT, vz) && Rep(A, WIDE, a) && Rep(B, WIDE, b)
    modifies x3, z3
    ensures var da, cb := Mul(Sub(vx, vz), a), Mul(Add(vx, vz), b);
            Rep(x3, TIGHT, Mul(Add(da, cb), Add(da, cb))) && Rep(z3, TIGHT, Mul(u, Mul(Sub(da, cb), Sub(da, cb))))
  {
    var C, D, DA, CB := new int32[10], new int32[10], new int32[10], new int32[10];
    AddRep(C, x3, z3, LOOSE, TIGHT, WIDE, vx, vz);
    SubRep(D, x3, z3, LOOSE, TIGHT, WIDE, vx, vz);
    MulRep(DA, D, A, WIDE, WIDE, Sub(vx, vz), a);
    MulRep(CB, C, B, WIDE, WIDE, Add(vx, vz), b);
    SumSquares(x1, x3, z3, DA, CB, u, Mul(Sub(vx, vz), a), Mul(Add(vx, vz), b));
  }

  method SumSquares(x1: array<int32>, x3: array<int32>, z3: array<int32>, DA: array<int32>, CB: array<int32>,
                    ghost u: int, ghost da: int, ghost cb: int)
    requires x3.Length == z3.Length == 10 && x3 != z3 && x1 !in {x3, z3} && DA !in {x3, z3} && CB !in {x3, z3}
    requires Rep(x1, LOOSE, u) && Rep(DA, TIGHT, da) && Rep(CB, TIGHT, cb)
    modifies x3, z3
    ensures Rep(x3, TIGHT, Mul(Add(da, cb), Add(da, cb))) && Rep(z3, TIGHT, Mul(u, Mul(Sub(da, cb), Sub(da, cb))))
  {
    AddRep(x3, DA, CB, TIGHT, TIGHT, WIDE, da, cb);
    MulRep(x3, x3, x3, WIDE, WIDE, Add(da, cb), Add(da, cb));
    SubRep(z3, DA, CB, TIGHT, TIGHT, WIDE, da, cb);
    MulRep(z3, z3, z3, WIDE, WIDE, Sub(da, cb), Sub(da, cb));
    MulRep(z3, x1, z3, LOOSE, TIGHT, u, Mul(Sub(da, cb), Sub(da, cb)));
  }

  /** x2 = AA * BB, z2 = E * (121665 * E + AA). */
  method StepDouble(x2: array<int32>, z2: array<int32>, AA: array<int32>, BB: array<int32>, E: array<int32>,
                    ghost aa: int, ghost bb: int, ghost e: int)
    requires x2.Length == z2.Length == 10 && x2 != z2 && AA !in {x2, z2} && BB !in {x2, z2} && E !in {x2, z2}
    requires Rep(AA, TIGHT, aa) && Rep(BB, TIGHT, bb) && Rep(E, 2 * TIGHT, e)
    modifies x2, z2
    ensures Rep(x2, TIGHT, Mul(aa, bb)) && Rep(z2, TIGHT, Mul(e, Add(Mul(121665, e), aa)))
  {
    MulRep(x2, AA, BB, TIGHT, TIGHT, aa, bb);
    FeMul121665(z2, E);
    AddRep(z2, z2, AA, TIGHT, TIGHT, WIDE, Mul(121665, e), aa);
    MulRep(z2, E, z2, 2 * TIGHT, WIDE, e, Add(Mul(121665, e), aa));
  }

  method LadderStep(x1: array<int32>, x2: array<int32>, z2: array<int32>, x3: array<int32>, z3: array<int32>,
                    ghost u: int, ghost s: Ladder)
    requires Apart(x2, z2, x3, z3) && x1 !in {x2, z2, x3, z3}
    requires Rep(x1, LOOSE, u) && RepState(x2, z2, x3, z3, s)
    modifies x2, z2, x3, z3
    ensures RepState(x2, z2, x3, z3, Step(u, s))
  {
    var A, AA, B, BB, E := new int32[10], new int32[10], new int32[10], new int32[10], new int32[10];
    ghost var a, b := Add(s.x2, s.z2), Sub(s.x2, s.z2);
    StepSquares(A, AA, B, BB, E, x2, z2, s.x2, s.z2, a, b);
    StepSum(x1, x3, z3, A, B, u, s.x3, s.z3, a, b);
    StepDouble(x2, z2, AA, BB, E, Mul(a, a), Mul(b, b), Sub(Mul(a, a), Mul(b, b)));
    Widens(x2[..], TIGHT, LOOSE);
    Widens(x3[..], TIGHT, LOOSE);
  }

  // ---------- scalar bits ----------

  lemma {:induction false} BitOfByte(s: seq<byte>, t: nat)
    requires t < 8 * |s|
    ensures Bit(Decode(s), t) == s[t / 8] / Pow2(t % 8) % 2
  {
    if t < 8 {
      LowBit(s[0], Decode(s[1..]), t);
    } else {
      var r := s[1..];
      BitOfByte(r, t - 8);
      HighBit(s[0], Decode(r), t);
      assert r[(t - 8) / 8] == s[t / 8];
    }
  }

  /** Bit t < 8 only depends on the lowest byte. */
  lemma LowBit(b: byte, n: nat, t: nat)
    requires t < 8
    ensures (b + 256 * n) / Pow2(t) % 2 == b / Pow2(t) % 2
  {
    Pow2Add(t, 7 - t);
    assert Pow2(7) == 128;
    DropHigh(b, n, Pow2(t), Pow2(7 - t));
  }

  lemma DropHigh(b: nat, n: nat, p: nat, q: nat)
    requires p > 0 && p * q == 128
    ensures (b + 256 * n) / p % 2 == b / p % 2
  {
    Regroup(p, q, n);
    AddEven(b + 256 * n, b, p, q * n);
    SameParity(b / p, q * n);
  }

  lemma Regroup(p: nat, q: nat, n: nat)
    requires p * q == 128
    ensures p * (q * n) == 128 * n
  {
    assert p * (q * n) == (p * q) * n;
  }

  lemma AddEven(x: nat, b: nat, p: nat, m: nat)
    requires p > 0 && x == b + 2 * (p * m)
    ensures x / p == b / p + 2 * m
  {
    DivMod(x, p, b / p + 2 * m, b % p);
  }

  lemma SameParity(x: nat, m: nat)
    ensures (x + 2 * m) % 2 == x % 2
  {}

  lemma HighBit(b: byte, n: nat, t: nat)
    requires t >= 8
    ensures (b + 256 * n) / Pow2(t) == n / Pow2(t - 8)
  {
    Pow2Values();
    Pow2Add(8, t - 8);
    DivDiv(b + 256 * n, 256, Pow2(t - 8));
    assert (b + 256 * n) / 256 == n;
  }

  method FeSwapBoth(x2: array<int32>, z2: array<int32>, x3: array<int32>, z3: array<int32>, b: nat, ghost s: Ladder)
    requires Apart(x2, z2, x3, z3) && RepState(x2, z2, x3, z3, s) && b < 2
    modifies x2, z2, x3, z3
    ensures RepState(x2, z2, x3, z3, Swap(b, s))
  {
    FeCswap(x2, x3, b);
    FeCswap(z2, z3, b);
  }

  /** x2 = 1, z2 = 0, x3 = x1, z3 = 1. */
  method Start(x1: array<int32>, x2: array<int32>, z2: array<int32>, x3: array<int32>, z3: array<int32>, ghost u: int)
    requires Apart(x2, z2, x3, z3) && x1 !in {x2, z2, x3, z3}
    requires x2.Length == z2.Length == x3.Length == z3.Length == 10 && Rep(x1, LOOSE, u)
    modifies x2, z2, x3, z3
    ensures RepState(x2, z2, x3, z3, Ladder(1, 0, u, 1))
  {
    var i := 0;
    while i < 10
      invariant 0 <= i <= 10
      invariant forall j | 0 <= j < i :: x2[j] == (if j == 0 then 1 else 0) && z2[j] == 0
      invariant forall j | 0 <= j < i :: x3[j] == x1[j] && z3[j] == (if j == 0 then 1 else 0)
    {
      x2[i], z2[i] := if i == 0 then 1 else 0, 0;
      x3[i], z3[i] := x1[i], if i == 0 then 1 else 0;
      i := i + 1;
    }
    assert x3[..] == x1[..];
    assert x2[..] == [1, 0, 0, 0, 0, 0, 0, 0, 0, 0];
    assert z3[..] == [1, 0, 0, 0, 0, 0, 0, 0, 0, 0];
    assert z2[..] == [0, 0, 0, 0, 0, 0, 0, 0, 0, 0];
  }

  /** swap ^= kt; both conditional swaps; one step. */
  method SwapStep(x1: array<int32>, x2: array<int32>, z2: array<int32>, x3: array<int32>, z3: array<int32>,
                  swap: nat, kt: nat, ghost u: int, ghost s: Ladder)
    requires Apart(x2, z2, x3, z3) && x1 !in {x2, z2, x3, z3} && swap < 2 && kt < 2
    requires Rep(x1, LOOSE, u) && RepState(x2, z2, x3, z3, s)
    modifies x2, z2, x3, z3
    ensures RepState(x2, z2, x3, z3, Step(u, Swap((swap + kt) % 2, s)))
  {
    var b := Xor(swap, kt);
    assert b == (swap + kt) % 2;
    FeSwapBoth(x2, z2, x3, z3, b, s);
    LadderStep(x1, x2, z2, x3, z3, u, Swap(b, s));
  }

  /** (ks[t / 8] >> (t % 8)) & 1 */
  method ScalarBit(ks: array<byte>, t: nat) returns (kt: nat)
    requires ks.Length == 32 && t < 256
    ensures kt == Bit(Decode(ks[..]), t)
  {
    BitOfByte(ks[..], t);
    kt := ks[t / 8] / Pow2(t % 8) % 2;
  }

  /** The body of the ladder loop for bit t. */
  method ClimbStep(ks: array<byte>, x1: array<int32>, x2: array<int32>, z2: array<int32>, x3: array<int32>, z3: array<int32>,
                   swap: nat, t: nat, ghost u: int, ghost k: nat) returns (kt: nat)
    requires ks.Length == 32 && k == Decode(ks[..]) && Apart(x2, z2, x3, z3) && x1 !in {x2, z2, x3, z3}
    requires t < 255 && swap < 2 && swap == Run(k, u, t + 1).1
    requires Rep(x1, LOOSE, u) && RepState(x2, z2, x3, z3, Run(k, u, t + 1).0)
    modifies x2, z2, x3, z3
    ensures kt < 2 && kt == Run(k, u, t).1
    ensures RepState(x2, z2, x3, z3, Run(k, u, t).0)
  {
    kt := ScalarBit(ks, t);
    SwapStep(x1, x2, z2, x3, z3, swap, kt, u, Run(k, u, t + 1).0);
  }

  /** The 255 steps and the final swap. */
  method Climb(ks: array<byte>, x1: array<int32>, x2: array<int32>, z2: array<int32>, x3: array<int32>, z3: array<int32>,
               ghost u: int, ghost k: nat)
    requires ks.Length == 32 && k == Decode(ks[..]) && Apart(x2, z2, x3, z3) && x1 !in {x2, z2, x3, z3}
    requires Rep(x1, LOOSE, u) && RepState(x2, z2, x3, z3, Ladder(1, 0, u, 1))
    modifies x2, z2, x3, z3
    ensures RepState(x2, z2, x3, z3, Swap(Run(k, u, 0).1, Run(k, u, 0).0))
  {
    var swap, t := 0, 254;
    while t >= 0
      invariant -1 <= t <= 254 && 0 <= swap < 2 && swap == Run(k, u, t + 1).1
      invariant RepState(x2, z2, x3, z3, Run(k, u, t + 1).0)
    {
      swap := ClimbStep(ks, x1, x2, z2, x3, z3, swap, t, u, k);
      t := t - 1;
    }
    FeSwapBoth(x2, z2, x3, z3, swap, Run(k, u, 0).0);
  }

  // ---------- x25519 ----------

  lemma TopWord(s: seq<byte>, r: seq<byte>)
    requires |s| == |r| == 32 && r == s[31 := s[31] % 128]
    ensures Word(s, 28) == Word(r, 28) + 0x80000000 * (s[31] as int / 128)
    ensures Word(s, 0) == Word(r, 0) && Word(s, 4) == Word(r, 4) && Word(s, 8) == Word(r, 8)
    ensures Word(s, 12) == Word(r, 12) && Word(s, 16) == Word(r, 16) && Word(s, 20) == Word(r, 20)
    ensures Word(s, 24) == Word(r, 24)
  {}

  lemma WordsTop(w: seq<uint32>, v: seq<uint32>, b: nat)
    requires |w| == |v| == 8 && w[7] == v[7] + 0x80000000 * b
    requires forall i | 0 <= i < 7 :: w[i] == v[i]
    ensures Words(w) == Words(v) + 0x8000000000000000000000000000000000000000000000000000000000000000 * b
  {}

  lemma ModTop(x: nat, y: nat, b: nat)
    requires x == y + 0x8000000000000000000000000000000000000000000000000000000000000000 * b
    ensures x % 0x8000000000000000000000000000000000000000000000000000000000000000
         == y % 0x8000000000000000000000000000000000000000000000000000000000000000
  {}

  /** Clearing bit 255 does not change the value modulo 2^255. */
  lemma TopBit(s: seq<byte>, r: seq<byte>)
    requires |s| == |r| == 32 && r == s[31 := s[31] % 128]
    ensures Decode(r) % 0x8000000000000000000000000000000000000000000000000000000000000000
         == Decode(s) % 0x8000000000000000000000000000000000000000000000000000000000000000
  {
    DecodeAll(s);
    DecodeAll(r);
    TopWord(s, r);
    WordsTop([Word(s, 0), Word(s, 4), Word(s, 8), Word(s, 12), Word(s, 16), Word(s, 20), Word(s, 24), Word(s, 28)],
             [Word(r, 0), Word(r, 4), Word(r, 8), Word(r, 12), Word(r, 16), Word(r, 20), Word(r, 24), Word(r, 28)],
             s[31] / 128);
    ModTop(Decode(s), Decode(r), s[31] / 128);
  }

  method CopyBytes(d: array<byte>, s: array<byte>)
    requires d.Length == s.Length && d != s
    modifies d
    ensures d[..] == s[..]
  {
    var i := 0;
    while i < s.Length
      invariant 0 <= i <= s.Length && forall j | 0 <= j < i :: d[j] == s[j]
    {
      d[i] := s[i];
      i := i + 1;
    }
  }

  lemma {:induction false} OrSet(x: nat, y: nat, n: nat)
    requires x < Pow2(n) && y < 2
    ensures Or(x + Pow2(n) * y, Pow2(n)) == x + Pow2(n)
  {
    if n == 0 {
      OrZero(0);
    } else {
      var m := Pow2(n - 1);
      assert Pow2(n) * y == 2 * (m * y);
      OrSet(x / 2, y, n - 1);
      assert (x + 2 * (m * y)) / 2 == x / 2 + m * y && (x + 2 * (m * y)) % 2 == x % 2;
    }
  }

  lemma AndHigh(l: nat, h: nat, n: nat, k: nat, m: nat, x: nat, y: nat)
    requires l < Pow2(n) && h < Pow2(k) && m == Pow2(k) - 1 && x == Pow2(n) * h && y == Pow2(n) * m
    ensures And(l + x, y) == x
  {
    AndZero(l);
    AndMask(h, k);
    AndApart(l, h, 0, m, n, x, y, x);
  }

  lemma LowMask(a: nat, l: nat, h: nat)
    requires a == l + 8 * h && l < 8 && h < 32
    ensures And(a, 248) == a - l
  {
    assert Pow2(3) == 8 && Pow2(5) == 32;
    AndHigh(l, h, 3, 5, 31, 8 * h, 248);
  }

  lemma TopMask(z: nat)
    ensures And(z, 127) == z % 128
  {
    assert Pow2(7) == 128;
    AndLow(z, 7);
  }

  lemma TopSet(z: nat, l: nat, h: nat)
    requires z == l + 64 * h && l < 64 && h < 2
    ensures Or(z, 64) == l + 64
  {
    assert Pow2(6) == 64;
    OrSet(l, h, 6);
  }

  method MaskLow(a: byte) returns (x: byte)
    ensures x == a - a % 8
  {
    var l, h := a % 8, a / 8;
    LowMask(a, l, h);
    x := And(a, 248);
  }

  method MaskTop(z: byte) returns (x: byte)
    ensures x == z % 128
  {
    TopMask(z);
    x := And(z, 127);
  }

  method SetTop(z: byte) returns (x: byte)
    requires z < 128
    ensures x == z % 64 + 64
  {
    var l, h := z % 64, z / 64;
    TopSet(z, l, h);
    x := Or(z, 64);
  }

  /** ks[0] &= 248; ks[31] &= 127; ks[31] |= 64 on a copy of the scalar. */
  method ClampScalar(ks: array<byte>, k: array<byte>)
    requires ks.Length == k.Length == 32 && ks != k
    modifies ks
    ensures ks[..] == Clamp(k[..])
  {
    CopyBytes(ks, k);
    ks[0] := MaskLow(ks[0]);
    ks[31] := MaskTop(ks[31]);
    ks[31] := SetTop(ks[31]);
  }

  method LoadPoint(x1: array<int32>, u: array<byte>, ghost v: int)
    requires x1.Length == 10 && u.Length == 32
    requires v == Decode(u[..]) % 0x8000000000000000000000000000000000000000000000000000000000000000 % P
    modifies x1
    ensures Rep(x1, LOOSE, v)
  {
    var us := new byte[32];
    CopyBytes(us, u);
    us[31] := us[31] % 128;
    TopBit(u[..], us[..]);
    FeLoad(x1, us);
  }

  /** x2 / z2, encoded. */
  method Affine(out: array<byte>, x2: array<int32>, z2: array<int32>, ghost x: int, ghost z: int)
    requires out.Length == 32 && x2 != z2 && Rep(x2, LOOSE, x) && Rep(z2, TIGHT, z)
    modifies out, x2, z2
    ensures Decode(out[..]) == Mul(x, Pow(z, P - 2))
  {
    FeInvert(z2, z2);
    MulRep(x2, x2, z2, LOOSE, TIGHT, x, Pow(z, P - 2));
    FeStore(out, x2);
  }

  /** The limb-level x25519 returns the canonical encoding of the RFC 7748 result. */
  method X25519(out: array<byte>, k: array<byte>, u: array<byte>)
    requires out.Length == k.Length == u.Length == 32
    modifies out
    ensures Decode(out[..]) == Rfc7748.X25519(old(k[..]), old(u[..]))
  {
    var ks := new byte[32];
    ghost var n, v := Decode(Clamp(k[..])),
      Decode(u[..]) % 0x8000000000000000000000000000000000000000000000000000000000000000 % P;
    ClampScalar(ks, k);
    var x1, x2, z2, x3, z3 := new int32[10], new int32[10], new int32[10], new int32[10], new int32[10];
    LoadPoint(x1, u, v);
    Start(x1, x2, z2, x3, z3, v);
    Climb(ks, x1, x2, z2, x3, z3, v, n);
    ghost var f := Swap(Run(n, v, 0).1, Run(n, v, 0).0);
    Affine(out, x2, z2, f.x2, f.z2);
  }
}
