/** What the ladder of section 5 of RFC 7748 computes: a multiple of the point, on the coordinates alone. */
module MontgomeryLadder {
  import opened Bits
  import opened Rfc7748

  /** A point of the curve y^2 = x^3 + 486662 x^2 + x by its projective x coordinate. */
  datatype Point = Point(x: int, z: int)

  /** Doubling. */
  ghost function Double(p: Point): Point
  {
    var x, z := p.x, p.z;
    Point((x * x - z * z) * (x * x - z * z) % P, 4 * x * z * (x * x + 486662 * x * z + z * z) % P)
  }

  /** Differential addition: the sum of two points whose difference has coordinate u. */
  ghost function Sum(u: int, p: Point, q: Point): Point
  {
    var even, odd := p.x * q.x - p.z * q.z, p.x * q.z - p.z * q.x;
    Point(4 * (even * even) % P, 4 * u * (odd * odd) % P)
  }

  /** A law under a quantifier with this key is opened by naming it. */
  ghost predicate LawKey(n: nat) { true }

  // ---------- one step ----------

  ghost predicate Same(a: int, b: int) { a % P == b % P }

  lemma SameBy(a: int, b: int, m: int)
    requires a == b + P * m
    ensures Same(a, b)
  {
    var q := b / P;
    assert b == P * q + b % P;
    assert a == P * (q + m) + b % P;
    DivMod(a, P, q + m, b % P);
  }

  lemma SameFrom(a: int, b: int) returns (m: int)
    requires Same(a, b)
    ensures a == b + P * m
  {
    m := a / P - b / P;
    assert a == P * (a / P) + a % P && b == P * (b / P) + b % P;
  }

  lemma SameMul(a: int, b: int, c: int, d: int)
    requires Same(a, b) && Same(c, d)
    ensures Same(Mul(a, c), b * d)
  {
    var m := SameFrom(a, b);
    var n := SameFrom(c, d);
    MulOut(b, d, P, m, n);
    SameBy(a * c, b * d, b * n + d * m + P * (m * n));
  }

  lemma MulOut(b: int, d: int, p: int, m: int, n: int)
    ensures (b + p * m) * (d + p * n) == b * d + p * (b * n + d * m + p * (m * n))
  {}

  lemma SameAdd(a: int, b: int, c: int, d: int)
    requires Same(a, b) && Same(c, d)
    ensures Same(Add(a, c), b + d) && Same(Sub(a, c), b - d)
  {
    var m := SameFrom(a, b);
    var n := SameFrom(c, d);
    SameBy(a + c, b + d, m + n);
    SameBy(a - c, b - d, m - n);
  }

  lemma Reduced(a: int, b: int, c: int)
    requires Same(Mul(a, b), c)
    ensures Mul(a, b) == c % P
  {}

  lemma Squares(x: int, z: int, a: int, b: int)
    requires a == (x + z) * (x + z) && b == (x - z) * (x - z)
    ensures a - b == 4 * x * z && a * b == (x * x - z * z) * (x * x - z * z)
  {
    var s, d := x + z, x - z;
    assert s * d == x * x - z * z;
    Regroup(s, d);
  }

  lemma Regroup(s: int, d: int)
    ensures (s * s) * (d * d) == (s * d) * (s * d)
  {}

  lemma Tripled(x: int, z: int, a: int, e: int)
    requires a == (x + z) * (x + z) && e == 4 * x * z
    ensures e * (121665 * e + a) == 4 * x * z * (x * x + 486662 * x * z + z * z)
  {
    assert 121665 * e + a == x * x + 486662 * x * z + z * z;
  }

  /** The first half of a ladder step doubles a point. */
  lemma StepDoubles(u: int, s: Ladder)
    ensures exists n: nat {:trigger LawKey(n)} :: LawKey(n) && var x, z := s.x2, s.z2;
      && Step(u, s).x2 == (x * x - z * z) * (x * x - z * z) % P
      && Step(u, s).z2 == 4 * x * z * (x * x + 486662 * x * z + z * z) % P
  {
    assert LawKey(0);
    var x, z := s.x2, s.z2;
    var a, b := Add(x, z), Sub(x, z);
    var aa, bb := Mul(a, a), Mul(b, b);
    var e := Sub(aa, bb);
    var A, B := (x + z) * (x + z), (x - z) * (x - z);
    SameAdd(x, x, z, z);
    SameMul(a, x + z, a, x + z);
    SameMul(b, x - z, b, x - z);
    SameAdd(aa, A, bb, B);
    Squares(x, z, A, B);
    Tripled(x, z, A, A - B);
    DoubleX(aa, bb, A, B, A * B);
    DoubleZ(e, aa, A - B, A, (A - B) * (121665 * (A - B) + A));
  }

  lemma DoubleX(aa: int, bb: int, A: int, B: int, n: int)
    requires Same(aa, A) && Same(bb, B) && n == A * B
    ensures Mul(aa, bb) == n % P
  {
    SameMul(aa, A, bb, B);
    Reduced(aa, bb, n);
  }

  lemma DoubleZ(e: int, aa: int, E: int, A: int, n: int)
    requires Same(e, E) && Same(aa, A) && n == E * (121665 * E + A)
    ensures Mul(e, Add(Mul(121665, e), aa)) == n % P
  {
    SameMul(121665, 121665, e, E);
    SameAdd(Mul(121665, e), 121665 * E, aa, A);
    SameMul(e, E, Add(Mul(121665, e), aa), 121665 * E + A);
    Reduced(e, Add(Mul(121665, e), aa), n);
  }

  lemma Crossed(x: int, z: int, y: int, w: int, d: int, c: int)
    requires d == (y - w) * (x + z) && c == (y + w) * (x - z)
    ensures d + c == 2 * (x * y - z * w) && d - c == -2 * (x * w - z * y)
  {}

  lemma Twos(m: int, n: int, a: int, b: int)
    requires a == 2 * m && b == -2 * n
    ensures a * a == 4 * (m * m) && b * b == 4 * (n * n)
  {}

  lemma TimesFour(u: int, m: int)
    ensures u * (4 * m) == 4 * u * m
  {}

  /** The second half adds two points, given the coordinate of their difference. */
  lemma StepAdds(u: int, s: Ladder)
    ensures exists n: nat {:trigger LawKey(n)} :: LawKey(n) && var even, odd := s.x2 * s.x3 - s.z2 * s.z3, s.x2 * s.z3 - s.z2 * s.x3;
      && Step(u, s).x3 == 4 * (even * even) % P
      && Step(u, s).z3 == 4 * u * (odd * odd) % P
  {
    assert LawKey(0);
    var x, z, y, w := s.x2, s.z2, s.x3, s.z3;
    var a, b, c, d := Add(x, z), Sub(x, z), Add(y, w), Sub(y, w);
    SameAdd(x, x, z, z);
    SameAdd(y, y, w, w);
    SameMul(d, y - w, a, x + z);
    SameMul(c, y + w, b, x - z);
    var da, cb, D, C := Mul(d, a), Mul(c, b), (y - w) * (x + z), (y + w) * (x - z);
    var m, n := x * y - z * w, x * w - z * y;
    Crossed(x, z, y, w, D, C);
    SameAdd(da, D, cb, C);
    Twos(m, n, D + C, D - C);
    DoubleX(Add(da, cb), Add(da, cb), D + C, D + C, 4 * (m * m));
    TimesFour(u, n * n);
    ScaledSquare(u, Sub(da, cb), D - C, 4 * u * (n * n));
  }

  lemma ScaledSquare(u: int, q: int, D: int, n: int)
    requires Same(q, D) && n == u * (D * D)
    ensures Mul(u, Mul(q, q)) == n % P
  {
    SameMul(q, D, q, D);
    SameMul(u, u, Mul(q, q), D * D);
    Reduced(u, Mul(q, q), n);
  }

  // ---------- all steps ----------

  /** How a multiple of the point is reached: from nothing and the point itself, by doublings, and by sums of multiples that
      differ by the point. */
  datatype Chain = None | Base | Twice(c: Chain) | Plus(c: Chain, d: Chain)

  ghost function Index(c: Chain): nat
  {
    match c
    case None => 0
    case Base => 1
    case Twice(d) => 2 * Index(d)
    case Plus(d, e) => Index(d) + Index(e)
  }

  ghost predicate Legal(c: Chain)
  {
    match c
    case None => true
    case Base => true
    case Twice(d) => Legal(d)
    case Plus(d, e) => Legal(d) && Legal(e) && (Index(d) == Index(e) + 1 || Index(e) == Index(d) + 1)
  }

  /** The coordinates that doubling and differential addition give along the way. */
  ghost function At(c: Chain, u: int): Point
  {
    match c
    case None => Point(1, 0)
    case Base => Point(u, 1)
    case Twice(d) => Double(At(d, u))
    case Plus(d, e) => Sum(u, At(d, u), At(e, u))
  }

  datatype Pair = Pair(low: Chain, high: Chain)

  /** Chains for n and n + 1, by the m bits of n from the highest on. */
  ghost function Multiples(n: nat, m: nat): (r: Pair)
    ensures Shift(n, m) == 0 ==> Legal(r.low) && Legal(r.high) && Index(r.low) == n && Index(r.high) == n + 1
    decreases m
  {
    if m == 0 then Pair(None, Base) else
      var h := Multiples(n / 2, m - 1);
      if n % 2 == 0 then Pair(Twice(h.low), Plus(h.low, h.high)) else Pair(Plus(h.high, h.low), Twice(h.high))
  }

  ghost predicate HoldsKey(n: nat) { true }

  /** The state holds these multiples; kept folded. */
  ghost predicate Holds(s: Ladder, h: Pair, u: int)
  {
    forall n: nat {:trigger HoldsKey(n)} | HoldsKey(n) :: Point(s.x2, s.z2) == At(h.low, u) && Point(s.x3, s.z3) == At(h.high, u)
  }

  lemma SwapTwice(a: nat, b: nat, s: Ladder)
    requires a < 2 && b < 2
    ensures Swap((a + b) % 2, s) == Swap(b, Swap(a, s))
  {}

  lemma {:induction false} ShiftNext(k: nat, t: nat)
    ensures Shift(k, t + 1) == Shift(k, t) / 2
    decreases t
  {
    if t > 0 { ShiftNext(k / 2, t - 1); }
  }

  lemma NextBit(k: nat, t: nat)
    ensures Shift(k, t) == 2 * Shift(k, t + 1) + Bit(k, t)
  {
    ShiftNext(k, t);
    ShiftIs(k, t);
  }

  /** A step by bit b takes multiples n and n + 1 to 2 n + b and 2 n + b + 1. */
  lemma StepHolds(u: int, s: Ladder, n: nat, b: nat, m: nat)
    requires b < 2 && Holds(s, Multiples(n, m), u)
    ensures Holds(Swap(b, Step(u, Swap(b, s))), Multiples(2 * n + b, m + 1), u)
  {
    var r := Swap(b, s);
    assert HoldsKey(0);
    StepDoubles(u, r);
    StepAdds(u, r);
    assert (2 * n + b) / 2 == n && (2 * n + b) % 2 == b;
  }

  /** After the m bits from 254 down to t of the scalar k the state, but for a pending swap, holds the multiples k >> t and
      (k >> t) + 1 of the point; kept folded. */
  ghost predicate Reached(k: nat, u: int, t: nat, m: nat)
  {
    forall n: nat {:trigger Folded(n)} | Folded(n) ::
      t <= 255 && Run(k, u, t).1 < 2 && Holds(Swap(Run(k, u, t).1, Run(k, u, t).0), Multiples(Shift(k, t), m), u)
  }

  lemma {:induction false} RunReaches(k: nat, u: int, t: nat, m: nat)
    requires t + m == 255
    ensures Reached(k, u, t, m)
    decreases m
  {
    if m > 0 {
      RunReaches(k, u, t + 1, m - 1);
      RunNext(k, u, t, m - 1);
    }
  }

  lemma RunNext(k: nat, u: int, t: nat, m: nat)
    requires t < 255
    ensures Reached(k, u, t + 1, m) ==> Reached(k, u, t, m + 1)
  {
    if Reached(k, u, t + 1, m) {
      assert Folded(0);
      var (s, swap) := Run(k, u, t + 1);
      NextBit(k, t);
      SwapTwice(swap, Bit(k, t), s);
      StepHolds(u, Swap(swap, s), Shift(k, t + 1), Bit(k, t), m);
    }
  }

  // ---------- the scalar ----------

  lemma {:induction false} DecodeSplit(s: seq<byte>, n: nat)
    requires n <= |s|
    ensures Decode(s) == Decode(s[..n]) + Pow2(8 * n) * Decode(s[n..])
  {
    if n > 0 {
      var t := s[1..];
      DecodeSplit(t, n - 1);
      assert s[..n][1..] == t[..n - 1] && s[n..] == t[n - 1..];
      Pow2Values();
      Pow2Add(8, 8 * (n - 1));
      SplitStep(s[0], Decode(t[..n - 1]), Pow2(8 * (n - 1)), Pow2(8 * n), Decode(s[n..]));
    } else {
      assert s[n..] == s;
    }
  }

  lemma SplitStep(b: nat, x: nat, p: nat, q: nat, y: nat)
    requires q == 256 * p
    ensures b + 256 * (x + p * y) == b + 256 * x + q * y
  {}

  lemma {:induction false} DecodeBelow(s: seq<byte>)
    ensures Decode(s) < Pow2(8 * |s|)
  {
    if s != [] {
      DecodeBelow(s[1..]);
      Pow2Values();
      Pow2Add(8, 8 * |s[1..]|);
    }
  }

  lemma PowSum(k: nat, m: nat, n: nat, p: nat, q: nat)
    requires k == m + n && Pow2(m) == p && Pow2(n) == q
    ensures Pow2(k) == p * q
  {
    Pow2Add(m, n);
  }

  lemma Powers(m: nat, n: nat)
    requires m == 240 && n == 255
    ensures Pow2(m) == 0x1000000000000000000000000000000000000000000000000000000000000 && Pow2(n) == 0x8000000000000000000000000000000000000000000000000000000000000000
  {
    var a := n - m;
    var b, c, d := a + a, 4 * a, 8 * a;
    assert Pow2(15) == 0x8000;
    PowSum(b, a, a, 0x8000, 0x8000);
    PowSum(c, b, b, 0x40000000, 0x40000000);
    PowSum(d, c, c, 0x1000000000000000, 0x1000000000000000);
    PowSum(m, d, d, 0x1000000000000000000000000000000, 0x1000000000000000000000000000000);
    PowSum(n, m, a, 0x1000000000000000000000000000000000000000000000000000000000000, 0x8000);
  }

  lemma DecodeParts(s: seq<byte>, m: nat)
    requires |s| == 32 && m == 30
    ensures Decode(s[1..31]) < 0x1000000000000000000000000000000000000000000000000000000000000 && Decode(s) == s[0] + 256 * Decode(s[1..31]) + 0x100000000000000000000000000000000000000000000000000000000000000 * (s[31] as int)
  {
    var t := s[1..];
    DecodeSplit(t, m);
    assert t[..m] == s[1..31] && t[m..] == [s[31]];
    assert Decode([s[31]]) == s[31] by { assert [s[31]][1..] == []; }
    DecodeBelow(s[1..31]);
    Powers(8 * m, 255);
    assert |s[1..31]| == m;
  }

  /** The clamped scalar: a multiple of 8 with 255 bits, whose bits 3 to 253 are those of the given one. */
  lemma ClampValue(k: seq<byte>)
    requires |k| == 32
    ensures var n := Decode(Clamp(k));
      n % 8 == 0 && 0x4000000000000000000000000000000000000000000000000000000000000000 <= n < 0x8000000000000000000000000000000000000000000000000000000000000000 && (n - 0x4000000000000000000000000000000000000000000000000000000000000000) / 8 == Decode(k) % 0x4000000000000000000000000000000000000000000000000000000000000000 / 8
  {
    var c := Clamp(k);
    DecodeParts(k, 30);
    DecodeParts(c, 30);
    assert c[1..31] == k[1..31];
    ClampParts(k[0], Decode(k[1..31]), k[31], Decode(k), Decode(c));
  }

  lemma ClampParts(a: byte, m: nat, z: byte, n: nat, c: nat)
    requires m < 0x1000000000000000000000000000000000000000000000000000000000000 && n == a + 256 * m + 0x100000000000000000000000000000000000000000000000000000000000000 * z && c == a - a % 8 + 256 * m + 0x100000000000000000000000000000000000000000000000000000000000000 * (z % 64 + 64)
    ensures c % 8 == 0 && 0x4000000000000000000000000000000000000000000000000000000000000000 <= c < 0x8000000000000000000000000000000000000000000000000000000000000000 && (c - 0x4000000000000000000000000000000000000000000000000000000000000000) / 8 == n % 0x4000000000000000000000000000000000000000000000000000000000000000 / 8
  {
    var y, h := z % 64, z / 64;
    var low := a + 256 * m + 0x100000000000000000000000000000000000000000000000000000000000000 * y;
    assert c == 8 * (a / 8 + 32 * m + 0x20000000000000000000000000000000000000000000000000000000000000 * (y + 64));
    assert c - 0x4000000000000000000000000000000000000000000000000000000000000000 == low - a % 8;
    assert n == 0x4000000000000000000000000000000000000000000000000000000000000000 * h + low && low < 0x4000000000000000000000000000000000000000000000000000000000000000;
    DivMod(n, 0x4000000000000000000000000000000000000000000000000000000000000000, h, low);
  }

  lemma {:induction false} ShiftSmall(k: nat, m: nat)
    requires k < Pow2(m)
    ensures Shift(k, m) == 0
    decreases m
  {
    if m > 0 { ShiftSmall(k / 2, m - 1); }
  }

  lemma ShiftScalar(n: nat, m: nat)
    requires m == 255 && n < 0x8000000000000000000000000000000000000000000000000000000000000000
    ensures Shift(n, m) == 0
  {
    Powers(240, m);
    ShiftSmall(n, m);
  }

  /** X25519 is the coordinate, made affine, of the multiple by the clamped scalar that a chain of doublings and
      differential additions reaches. */
  lemma ScalarMultiple(k: seq<byte>, u: seq<byte>) returns (c: Chain)
    requires |k| == |u| == 32
    ensures Legal(c) && Index(c) == Decode(Clamp(k))
    ensures var p := At(c, Decode(u) % 0x8000000000000000000000000000000000000000000000000000000000000000 % P);
      X25519(k, u) == Mul(p.x, Pow(p.z, P - 2))
  {
    var n, v, m := Decode(Clamp(k)), Decode(u) % 0x8000000000000000000000000000000000000000000000000000000000000000 % P, 255;
    ClampValue(k);
    ShiftScalar(n, m);
    RunReaches(n, v, 0, m);
    assert Shift(n, 0) == n && Folded(0) && HoldsKey(0);
    c := Multiples(n, m).low;
  }
}
