/** What section 2.5 of RFC 8439 computes: the message as a polynomial, evaluated at the clamped key. */
module PolyLaws {
  import opened Bits
  import opened Rfc8439

  // ---------- the key ----------

  /** The clamp keeps the low 28 bits of each 32-bit word, but for the low two of all words after the first. */
  ghost predicate Kept(t: nat) { t < 128 && t % 32 < 28 && (t < 32 || t % 32 >= 2) }

  lemma OnesBits(n: nat, t: nat)
    ensures BitOf(Pow2(n) - 1, t) <==> t < n
  {
    ComplementBit(0, n, t);
    ZeroBit(t);
  }

  lemma LowWord(t: nat)
    ensures BitOf(0x0fffffff, t) <==> t < 28
  {
    assert Pow2(14) == 0x4000;
    Pow2Add(14, 14);
    OnesBits(28, t);
  }

  lemma HighWord(t: nat)
    ensures BitOf(0x0ffffffc, t) <==> 2 <= t < 28
  {
    assert Pow2(13) == 0x2000 && Pow2(2) == 4;
    Pow2Add(13, 13);
    BitJoin(0, 0x03ffffff, 2, t);
    if t < 2 { ZeroBit(t); } else { OnesBits(26, t - 2); }
  }

  lemma WordJoin(a: nat, b: nat, t: nat)
    requires a < 0x1_0000_0000
    ensures BitOf(a + 0x1_0000_0000 * b, t) <==> if t < 32 then BitOf(a, t) else BitOf(b, t - 32)
  {
    Pow2Values();
    BitJoin(a, b, 32, t);
  }

  lemma ClampBits(t: nat)
    ensures BitOf(CLAMP, t) <==> Kept(t)
  {
    var w := 0x0ffffffc;
    var two := w + 0x1_0000_0000 * w;
    var three := w + 0x1_0000_0000 * two;
    WordJoin(0x0fffffff, three, t);
    if t < 32 {
      LowWord(t);
    } else {
      WordJoin(w, two, t - 32);
      if t < 64 {
        HighWord(t - 32);
      } else {
        WordJoin(w, w, t - 64);
        HighWord(if t < 96 then t - 64 else t - 96);
      }
    }
  }

  /** The key the message is evaluated at: the low half, with those bits only. */
  lemma KeyBits(key: seq<byte>, t: nat)
    requires |key| == 32
    ensures BitOf(R(key), t) <==> BitOf(Decode(key[..16]), t) && Kept(t)
  {
    BothBit(Decode(key[..16]), CLAMP, t);
    ClampBits(t);
  }

  // ---------- the polynomial ----------

  ghost function Blocks(msg: seq<byte>): nat { (|msg| + 15) / 16 }

  /** Block i, of sixteen bytes but for the last. */
  ghost function Chunk(msg: seq<byte>, i: nat): seq<byte>
  {
    if 16 * i + 16 <= |msg| then msg[16 * i..16 * i + 16] else if 16 * i <= |msg| then msg[16 * i..] else []
  }

  /** Its bytes as a little-endian number, with a one bit above. */
  ghost function Coefficient(msg: seq<byte>, i: nat): nat { Decode(Chunk(msg, i)) + Pow2(8 * |Chunk(msg, i)|) }

  ghost function Power(r: nat, n: nat): nat { if n == 0 then 1 else r * Power(r, n - 1) }

  ghost function Term(msg: seq<byte>, r: nat, n: nat, j: nat): nat
    requires j <= n
  {
    Coefficient(msg, j) * Power(r, n - j)
  }

  /** The n terms: coefficient j times r^(n - j). */
  ghost function Terms(msg: seq<byte>, r: nat, n: nat): (ts: seq<nat>)
    ensures |ts| == n && forall j: nat | j < n :: ts[j] == Term(msg, r, n, j)
  {
    seq(n, j requires 0 <= j < n => Term(msg, r, n, j))
  }

  ghost function Sum(ts: seq<nat>): nat { if ts == [] then 0 else ts[0] + Sum(ts[1..]) }

  lemma {:induction false} DecodeOne(s: seq<byte>)
    ensures Decode(s + [1]) == Decode(s) + Pow2(8 * |s|)
  {
    if s == [] {
      assert (s + [1])[1..] == [];
      assert s + [1] == [1];
    } else {
      assert (s + [1])[1..] == s[1..] + [1] && (s + [1])[0] == s[0];
      DecodeOne(s[1..]);
      Pow2Values();
      Pow2Add(8, 8 * |s[1..]|);
    }
  }

  lemma BlockIs(msg: seq<byte>)
    requires msg != []
    ensures Block(msg) == Coefficient(msg, 0)
  {
    var c := if |msg| < 16 then msg else msg[..16];
    assert c == Chunk(msg, 0);
    DecodeOne(c);
  }

  lemma RestChunk(msg: seq<byte>, i: nat)
    requires |msg| > 16 * (i + 1)
    ensures Chunk(Rest(msg), i) == Chunk(msg, i + 1)
  {
    var rest, a := msg[16..], 16 * i;
    assert Rest(msg) == rest;
    if a + 32 <= |msg| {
      assert rest[a..a + 16] == msg[a + 16..a + 32];
    } else {
      assert rest[a..] == msg[a + 16..];
    }
  }

  /** Without the first they are those of the rest of the message. */
  lemma TermsRest(msg: seq<byte>, r: nat, n: nat)
    requires n == Blocks(msg) > 0
    ensures Terms(msg, r, n)[0] == Term(msg, r, n, 0) && Terms(msg, r, n)[1..] == Terms(Rest(msg), r, n - 1)
  {
    var ts, us := Terms(msg, r, n), Terms(Rest(msg), r, n - 1);
    forall j: nat | j < n - 1 ensures ts[1..][j] == us[j] { TermRest(msg, r, n, j); }
  }

  lemma TermRest(msg: seq<byte>, r: nat, n: nat, i: nat)
    requires i < n && |msg| > 16 * (i + 1)
    ensures Term(Rest(msg), r, n - 1, i) == Term(msg, r, n, i + 1)
  {
    RestChunk(msg, i);
    assert Coefficient(Rest(msg), i) == Coefficient(msg, i + 1);
    assert n - 1 - i == n - (i + 1);
  }

  lemma ModTimes(x: nat, y: nat, z: nat)
    ensures (x % P * y + z) % P == (x * y + z) % P
  {
    var q := x / P;
    assert x == P * q + x % P;
    var w := x % P * y + z;
    assert x * y + z == P * (q * y + w / P) + w % P by {
      assert (P * q + x % P) * y == P * (q * y) + x % P * y;
    }
    DivMod(x * y + z, P, q * y + w / P, w % P);
  }

  lemma Spread(acc: nat, b: nat, r: nat, p: nat, q: nat)
    requires q == r * p
    ensures (acc + b) * r * p == acc * q + b * q
  {
    assert (acc + b) * r * p == (acc + b) * (r * p);
  }

  lemma {:induction false} AccumulateTerms(acc: nat, msg: seq<byte>, r: nat, n: nat)
    requires n == Blocks(msg)
    ensures Accumulate(acc, msg, r) % P == (acc * Power(r, n) + Sum(Terms(msg, r, n))) % P
    decreases |msg|
  {
    if msg != [] {
      var b, rest := Block(msg), Rest(msg);
      AccumulateTerms(Step(acc, b, r), rest, r, n - 1);
      BlockIs(msg);
      TermsRest(msg, r, n);
      assert Term(msg, r, n, 0) == b * Power(r, n);
      StepTerms(acc, b, r, Power(r, n - 1), Power(r, n), Sum(Terms(rest, r, n - 1)));
    }
  }

  lemma StepTerms(acc: nat, b: nat, r: nat, p: nat, q: nat, t: nat)
    requires q == r * p
    ensures (Step(acc, b, r) * p + t) % P == (acc * q + (b * q + t)) % P
  {
    ModTimes((acc + b) * r, p, t);
    Spread(acc, b, r, p, q);
  }

  lemma {:induction false} AccumulateBelow(acc: nat, msg: seq<byte>, r: nat)
    requires acc < P
    ensures Accumulate(acc, msg, r) < P
    decreases |msg|
  {
    if msg != [] { AccumulateBelow(Step(acc, Block(msg), r), Rest(msg), r); }
  }

  /** The accumulator is the polynomial with the blocks as coefficients, without a constant term, at r. */
  lemma AccumulateIs(msg: seq<byte>, r: nat)
    ensures Accumulate(0, msg, r) == Sum(Terms(msg, r, Blocks(msg))) % P
  {
    AccumulateTerms(0, msg, r, Blocks(msg));
    AccumulateBelow(0, msg, r);
  }
}
