/** Bytes, division with remainder, powers of two and the bitwise operations of C on natural numbers. */
module Bits {

  /** A definition under a quantifier with trigger Folded(n) stays folded in proofs that do not mention Folded. */
  ghost predicate Folded(n: nat) { true }

  type byte = x: int | 0 <= x < 256

  /** The integer a little-endian byte string denotes. */
  ghost function Decode(s: seq<byte>): (n: nat)
  {
    if s == [] then 0 else s[0] + 256 * Decode(s[1..])
  }

  lemma SmallMultiple(d: int, n: int)
    requires -n < d * n < n
    ensures d == 0
  {}

  lemma DivMod(x: int, n: int, q: int, r: int)
    requires n > 0 && x == n * q + r && 0 <= r < n
    ensures x / n == q && x % n == r
  {
    var d := x / n - q;
    assert d * n == r - x % n;
    SmallMultiple(d, n);
  }

  lemma DivDiv(n: nat, a: nat, b: nat)
    requires a > 0 && b > 0
    ensures n / (a * b) == n / a / b
  {
    var q, r := n / a, n % a;
    assert n == (a * b) * (q / b) + (a * (q % b) + r);
    assert a * (q % b) <= a * (b - 1);
    DivMod(n, a * b, q / b, a * (q % b) + r);
  }

  lemma MultipleMod(x: int, k: int, m: int)
    requires m > 0 && x == k * m
    ensures x % m == 0
  {
    DivMod(x, m, k, 0);
  }

  function Pow2(n: nat): (r: nat)
    ensures r > 0
  {
    if n == 0 then 1 else 2 * Pow2(n - 1)
  }

  lemma {:induction false} Pow2Add(m: nat, n: nat)
    ensures Pow2(m + n) == Pow2(m) * Pow2(n)
  {
    if m > 0 {
      Pow2Add(m - 1, n);
      assert Pow2(m + n) == 2 * (Pow2(m - 1) * Pow2(n));
    }
  }

  lemma Pow2Values()
    ensures Pow2(8) == 256 && Pow2(32) == 0x1_0000_0000
  {
    assert Pow2(4) == 16;
    Pow2Add(4, 4);
    Pow2Add(8, 8);
    Pow2Add(16, 16);
  }

  lemma Pow2Monotone(m: nat, n: nat)
    requires m <= n
    ensures Pow2(m) <= Pow2(n)
  {}

  /** x >> n */
  function Shift(x: nat, n: nat): nat
  {
    if n == 0 then x else Shift(x / 2, n - 1)
  }

  lemma {:induction false} ShiftIs(k: nat, t: nat)
    ensures Shift(k, t) == k / Pow2(t)
    decreases t
  {
    if t > 0 {
      ShiftIs(k / 2, t - 1);
      DivDiv(k, 2, Pow2(t - 1));
    }
  }

  function Xor(x: nat, y: nat): nat
  {
    if x == 0 && y == 0 then 0 else (if x % 2 == y % 2 then 0 else 1) + 2 * Xor(x / 2, y / 2)
  }

  function And(x: nat, y: nat): nat
  {
    if x == 0 && y == 0 then 0 else (if x % 2 == 1 && y % 2 == 1 then 1 else 0) + 2 * And(x / 2, y / 2)
  }

  lemma {:induction false} XorCancel(x: nat, y: nat)
    ensures Xor(x, Xor(x, y)) == y
  {
    if x != 0 || y != 0 {
      var z := Xor(x / 2, y / 2);
      XorCancel(x / 2, y / 2);
      assert Xor(x, y) % 2 == (if x % 2 == y % 2 then 0 else 1) && Xor(x, y) / 2 == z;
    }
  }

  lemma {:induction false} XorSymmetric(x: nat, y: nat)
    ensures Xor(x, y) == Xor(y, x)
  {
    if x != 0 || y != 0 { XorSymmetric(x / 2, y / 2); }
  }

  lemma {:induction false} XorZero(x: nat)
    ensures Xor(x, 0) == x
  {
    if x != 0 { XorZero(x / 2); }
  }

  lemma {:induction false} XorBelow(x: nat, y: nat, n: nat)
    requires x < Pow2(n) && y < Pow2(n)
    ensures Xor(x, y) < Pow2(n)
  {
    if n > 0 { XorBelow(x / 2, y / 2, n - 1); }
  }

  lemma {:induction false} AndMask(x: nat, n: nat)
    requires x < Pow2(n)
    ensures And(x, 0) == 0 && And(x, Pow2(n) - 1) == x
  {
    if n > 0 { AndMask(x / 2, n - 1); }
  }

  lemma AndOne(x: nat)
    ensures And(x, 1) == x % 2
  {
    if x / 2 > 0 { AndZero(x / 2); }
  }

  lemma {:induction false} AndZero(x: nat)
    ensures And(x, 0) == 0
  {
    if x > 0 { AndZero(x / 2); }
  }

  lemma HalfMod(x: nat, m: nat, p: nat)
    requires m > 0 && p == 2 * m
    ensures x % p == 2 * (x / 2 % m) + x % 2
  {
    var h := x / 2;
    var q, r := h / m, h % m;
    assert h == m * q + r;
    assert 2 * (m * q) == p * q;
    DivMod(x, p, q, 2 * r + x % 2);
  }

  lemma {:induction false} AndLow(x: nat, n: nat)
    ensures And(x, Pow2(n) - 1) == x % Pow2(n)
  {
    if n == 0 {
      AndZero(x);
    } else {
      var m := Pow2(n - 1);
      AndLow(x / 2, n - 1);
      HalfMod(x, m, Pow2(n));
      AndLowStep(x, m, Pow2(n), x / 2 % m);
    }
  }

  lemma AndLowStep(x: nat, m: nat, n: nat, r: nat)
    requires m > 0 && n == 2 * m && And(x / 2, m - 1) == r && x % n == 2 * r + x % 2
    ensures And(x, n - 1) == x % n
  {
    AndStep(x, n - 1);
    assert (n - 1) / 2 == m - 1;
  }

  lemma AndStep(x: nat, y: nat)
    requires y % 2 == 1
    ensures And(x, y) == x % 2 + 2 * And(x / 2, y / 2)
  {}

  function Or(x: nat, y: nat): nat
  {
    if x == 0 && y == 0 then 0 else (if x % 2 == 1 || y % 2 == 1 then 1 else 0) + 2 * Or(x / 2, y / 2)
  }

  /** Bit i of x is one. */
  predicate BitOf(x: nat, i: nat)
  {
    if i == 0 then x % 2 == 1 else BitOf(x / 2, i - 1)
  }

  lemma {:induction false} ZeroBit(i: nat)
    ensures !BitOf(0, i)
  {
    if i > 0 { ZeroBit(i - 1); }
  }

  lemma {:induction false} BitIs(x: nat, i: nat)
    ensures BitOf(x, i) <==> x / Pow2(i) % 2 == 1
    decreases i
  {
    if i > 0 {
      BitIs(x / 2, i - 1);
      DivDiv(x, 2, Pow2(i - 1));
    }
  }

  /** A bitwise and is taken apart at bit n. */
  lemma AndJoin(a: nat, b: nat, c: nat, d: nat, n: nat)
    requires a < Pow2(n) && c < Pow2(n)
    ensures And(a + Pow2(n) * b, c + Pow2(n) * d) == And(a, c) + Pow2(n) * And(b, d)
  {
    AndApart(a, b, c, d, n, Pow2(n) * b, Pow2(n) * d, Pow2(n) * And(b, d));
  }

  lemma {:induction false} AndApart(a: nat, b: nat, c: nat, d: nat, n: nat, p: nat, q: nat, s: nat)
    requires a < Pow2(n) && c < Pow2(n) && p == Pow2(n) * b && q == Pow2(n) * d && s == Pow2(n) * And(b, d)
    ensures And(a + p, c + q) == And(a, c) + s
    decreases n
  {
    if n == 0 {
      AndZero(0);
    } else {
      var m, r := Pow2(n - 1), And(b, d);
      Double(Pow2(n), m, b);
      Double(Pow2(n), m, d);
      Double(Pow2(n), m, r);
      AndApart(a / 2, b, c / 2, d, n - 1, m * b, m * d, m * r);
      AndTwice(a, c, m * b, m * d, m * r);
    }
  }

  lemma AndTwice(a: nat, c: nat, p: nat, q: nat, s: nat)
    requires And(a / 2 + p, c / 2 + q) == And(a / 2, c / 2) + s
    ensures And(a + 2 * p, c + 2 * q) == And(a, c) + 2 * s
  {
    AndHalf(a, c, p, q);
    AndBits(a, c);
  }

  lemma Double(x: nat, m: nat, b: nat)
    requires x == 2 * m
    ensures x * b == 2 * (m * b)
  {}

  lemma AndHalf(a: nat, c: nat, p: nat, q: nat)
    ensures And(a + 2 * p, c + 2 * q) == (if a % 2 == 1 && c % 2 == 1 then 1 else 0) + 2 * And(a / 2 + p, c / 2 + q)
  {
    AndBits(a + 2 * p, c + 2 * q);
    assert (a + 2 * p) / 2 == a / 2 + p && (c + 2 * q) / 2 == c / 2 + q;
  }

  lemma AndBits(x: nat, y: nat)
    ensures And(x, y) == (if x % 2 == 1 && y % 2 == 1 then 1 else 0) + 2 * And(x / 2, y / 2)
  {
    if x == 0 && y == 0 { AndZero(0); }
  }

  /** A bitwise or of numbers without common bits is their sum. */
  lemma {:induction false} OrJoin(x: nat, y: nat, n: nat)
    requires x < Pow2(n)
    ensures Or(x, Pow2(n) * y) == x + Pow2(n) * y
  {
    if n == 0 {
      OrSelf(y);
    } else {
      var m := Pow2(n - 1);
      assert Pow2(n) * y == 2 * (m * y);
      OrJoin(x / 2, y, n - 1);
    }
  }

  lemma {:induction false} OrZero(x: nat)
    ensures Or(x, 0) == x
  {
    if x > 0 { OrZero(x / 2); }
  }

  lemma {:induction false} OrSelf(y: nat)
    ensures Or(0, y) == y
  {
    if y > 0 { OrSelf(y / 2); }
  }

  /** The bytes x / 2^(8 i) denote x. */
  lemma {:induction false} DecodeDigits(s: seq<byte>, x: nat)
    requires x < Pow2(8 * |s|) && forall i | 0 <= i < |s| :: s[i] == x / Pow2(8 * i) % 256
    ensures Decode(s) == x
  {
    if s != [] {
      var t := s[1..];
      Pow2Values();
      Pow2Add(8, 8 * |t|);
      assert s[0] == x / Pow2(0) % 256;
      forall i | 0 <= i < |t| ensures t[i] == x / 256 / Pow2(8 * i) % 256 {
        Pow2Add(8, 8 * i);
        DivDiv(x, 256, Pow2(8 * i));
        assert t[i] == s[i + 1];
      }
      DecodeDigits(t, x / 256);
    }
  }

  // ---------- bits of the operators ----------

  lemma {:induction false} XorBit(x: nat, y: nat, t: nat)
    ensures BitOf(Xor(x, y), t) <==> BitOf(x, t) != BitOf(y, t)
    decreases t
  {
    if x == 0 && y == 0 {
      ZeroBit(t);
    } else if t > 0 {
      XorBit(x / 2, y / 2, t - 1);
    }
  }

  lemma {:induction false} BothBit(x: nat, y: nat, t: nat)
    ensures BitOf(And(x, y), t) <==> BitOf(x, t) && BitOf(y, t)
    decreases t
  {
    if x == 0 && y == 0 {
      ZeroBit(t);
    } else if t > 0 {
      BothBit(x / 2, y / 2, t - 1);
    }
  }

  lemma {:induction false} EitherBit(x: nat, y: nat, t: nat)
    ensures BitOf(Or(x, y), t) <==> BitOf(x, t) || BitOf(y, t)
    decreases t
  {
    if x == 0 && y == 0 {
      ZeroBit(t);
    } else if t > 0 {
      EitherBit(x / 2, y / 2, t - 1);
    }
  }

  lemma {:induction false} ShiftBit(x: nat, n: nat, t: nat)
    ensures BitOf(Shift(x, n), t) <==> BitOf(x, t + n)
    decreases n
  {
    if n > 0 { ShiftBit(x / 2, n - 1, t); }
  }

  lemma {:induction false} ModBit(x: nat, n: nat, t: nat)
    ensures BitOf(x % Pow2(n), t) <==> t < n && BitOf(x, t)
    decreases n
  {
    if n == 0 {
      ZeroBit(t);
    } else {
      HalfMod(x, Pow2(n - 1), Pow2(n));
      if t > 0 { ModBit(x / 2, n - 1, t - 1); }
    }
  }

  lemma BelowBit(x: nat, n: nat, t: nat)
    requires x < Pow2(n) && t >= n
    ensures !BitOf(x, t)
  {
    ModBit(x, n, t);
  }

  lemma {:induction false} ComplementBit(x: nat, n: nat, t: nat)
    requires x < Pow2(n)
    ensures BitOf(Pow2(n) - 1 - x, t) <==> t < n && !BitOf(x, t)
    decreases n
  {
    if n == 0 {
      ZeroBit(t);
    } else {
      var y := Pow2(n) - 1 - x;
      assert y % 2 != x % 2 && y / 2 == Pow2(n - 1) - 1 - x / 2;
      if t > 0 { ComplementBit(x / 2, n - 1, t - 1); }
    }
  }

  /** A number is determined by its bits. */
  lemma {:induction false} SameBits(x: nat, y: nat)
    requires forall t: nat :: BitOf(x, t) <==> BitOf(y, t)
    ensures x == y
    decreases x + y
  {
    assert BitOf(x, 0) <==> BitOf(y, 0);
    if x + y > 0 {
      forall t: nat ensures BitOf(x / 2, t) <==> BitOf(y / 2, t) {
        assert BitOf(x, t + 1) <==> BitOf(y, t + 1);
      }
      SameBits(x / 2, y / 2);
    }
  }

  /** The bits of a number put together from two parts. */
  lemma {:induction false} BitJoin(a: nat, b: nat, n: nat, t: nat)
    requires a < Pow2(n)
    ensures BitOf(a + Pow2(n) * b, t) <==> if t < n then BitOf(a, t) else BitOf(b, t - n)
    decreases n
  {
    if n > 0 {
      var m := Pow2(n - 1);
      assert Pow2(n) * b == 2 * (m * b);
      assert (a + 2 * (m * b)) / 2 == a / 2 + m * b && (a + 2 * (m * b)) % 2 == a % 2;
      if t > 0 { BitJoin(a / 2, b, n - 1, t - 1); }
    }
  }

  lemma FourBytes(s: seq<byte>)
    requires |s| == 4
    ensures Decode(s) == s[0] + 0x100 * (s[1] as int) + 0x1_0000 * (s[2] as int) + 0x100_0000 * (s[3] as int)
  {
    var t := s[1..];
    var u := t[1..];
    var w := u[1..];
    assert t[0] == s[1] && u[0] == s[2] && w[0] == s[3] && w[1..] == [];
    assert Decode(w) == s[3];
    assert Decode(u) == s[2] + 0x100 * Decode(w);
    assert Decode(t) == s[1] + 0x100 * Decode(u);
  }
}
