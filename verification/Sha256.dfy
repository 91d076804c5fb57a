/** The streaming SHA-256 of kernel/net/tls.c: a context that takes the message in any pieces. */
module Sha256 {
  import opened Bits
  import opened Fips180

  // ---------- folding ----------

  /** h is the hash value after the blocks of m. */
  ghost predicate Digested(m: seq<byte>, h: Regs)
  {
    forall n: nat {:trigger Folded(n)} | Folded(n) :: h == Fold(Compress, IV, m)
  }

  ghost predicate Compressed(v: Regs, b: seq<byte>, r: Regs)
  {
    forall n: nat {:trigger Folded(n)} | Folded(n) :: r == Compress(v, b)
  }

  lemma DigestedNone()
    ensures Digested([], IV)
  {}

  lemma FoldBlock(f: (Regs, seq<byte>) -> Regs, v: Regs, m: seq<byte>, b: seq<byte>)
    requires |b| == 64
    ensures Fold(f, v, m + b) == f(Fold(f, v, m), b)
  {
    assert (m + b)[..|m + b| - 64] == m && (m + b)[|m + b| - 64..] == b;
  }

  lemma DigestedBlock(m: seq<byte>, h: Regs, b: seq<byte>, r: Regs)
    requires Digested(m, h) && Compressed(h, b, r) && |b| == 64
    ensures Digested(m + b, r)
  {
    assert Folded(0);
    FoldBlock(Compress, IV, m, b);
  }

  // ---------- sha256_transform ----------

  /** Four bytes shifted into their places. */
  method Join(a: byte, b: byte, c: byte, d: byte) returns (w: nat)
    ensures w == 0x100_0000 * (a as int) + 0x1_0000 * (b as int) + 0x100 * (c as int) + d as int
  {
    var i: nat, j: nat, k: nat, l: nat := a as int, b as int, c as int, d as int;
    w := Or(Or(Or(0x100_0000 * i, 0x1_0000 * j), 0x100 * k), l);
    Pow2Values();
    Pow2Add(8, 8);
    Pow2Add(16, 8);
    OrPair(0x100_0000, i, 0x1_0000 * j, 24);
    OrPair(0x1_0000, 0x100 * i + j, 0x100 * k, 16);
    OrPair(0x100, 0x1_0000 * i + 0x100 * j + k, l, 8);
  }

  lemma OrPair(p: nat, x: nat, y: nat, n: nat)
    requires y < p && p == Pow2(n)
    ensures Or(p * x, y) == p * x + y
  {
    OrJoin(y, x, n);
    OrSymmetric(p * x, y);
  }

  lemma {:induction false} OrSymmetric(x: nat, y: nat)
    ensures Or(x, y) == Or(y, x)
  {
    if x != 0 || y != 0 { OrSymmetric(x / 2, y / 2); }
  }

  lemma PlusMoves(x: nat, y: nat, z: nat)
    ensures Plus(Plus(x, y), z) == Plus(x, Plus(y, z))
  {}

  /** The message schedule, filled in place. */
  method Schedule(d: seq<byte>) returns (w: array<nat>)
    requires |d| == 64
    ensures fresh(w) && w.Length == 64 && forall t | 0 <= t < 64 :: w[t] == W(d, t)
  {
    w := new nat[64](_ => 0);
    var i := 0;
    while i < 16
      invariant 0 <= i <= 16 && forall t | 0 <= t < i :: w[t] == W(d, t)
    {
      w[i] := Join(d[4 * i], d[4 * i + 1], d[4 * i + 2], d[4 * i + 3]);
      i := i + 1;
    }
    while i < 64
      invariant 16 <= i <= 64 && forall t | 0 <= t < i :: w[t] == W(d, t)
    {
      PlusMoves(Plus(Sigma1(w[i - 2]), w[i - 7]), Sigma0(w[i - 15]), w[i - 16]);
      w[i] := Plus(Plus(Plus(Sigma1(w[i - 2]), w[i - 7]), Sigma0(w[i - 15])), w[i - 16]);
      i := i + 1;
    }
  }

  /** One step on the eight registers, in the order of the code. */
  method Shuffle(v: Regs, k: nat, w: nat) returns (r: Regs)
    ensures r == Step(v, k, w)
  {
    var a, b, cc, d2, e, f, g, h := v.a, v.b, v.c, v.d, v.e, v.f, v.g, v.h;
    var t1 := Plus(Plus(Plus(Plus(h, Sum1(e)), Ch(e, f, g)), k), w);
    PlusMoves(Plus(Plus(h, Sum1(e)), Ch(e, f, g)), k, w);
    var t2 := Plus(Sum0(a), Maj(a, b, cc));
    h := g;
    g := f;
    f := e;
    e := Plus(d2, t1);
    d2 := cc;
    cc := b;
    b := a;
    a := Plus(t1, t2);
    r := Regs(a, b, cc, d2, e, f, g, h);
  }

  method Transform(v: Regs, d: seq<byte>) returns (r: Regs)
    requires |d| == 64
    ensures Compressed(v, d, r)
  {
    var w := Schedule(d);
    r := v;
    var i := 0;
    while i < 64
      invariant 0 <= i <= 64 && r == Steps(v, d, i) && forall t | 0 <= t < 64 :: w[t] == W(d, t)
    {
      r := Shuffle(r, K[i], w[i]);
      i := i + 1;
    }
    r := Add(v, r);
  }

  // ---------- the context ----------

  /** The last blocks of the padded message: one when the length still fits behind the rest of the message, else two. */
  lemma PadTail(m: seq<byte>, whole: seq<byte>, rest: seq<byte>)
    requires m == whole + rest && |whole| % 64 == 0 && |rest| < 64
    ensures |rest| < 56 ==> Pad(m) == whole + (rest + [0x80] + Zeros(55 - |rest|) + Length(8 * |m|))
    ensures |rest| >= 56 ==> Pad(m) == whole + (rest + [0x80] + Zeros(63 - |rest|)) + (Zeros(56) + Length(8 * |m|))
  {
    var k := (55 - |m|) % 64;
    assert k == if |rest| < 56 then 55 - |rest| else 119 - |rest|;
    if |rest| >= 56 { assert Zeros(k) == Zeros(63 - |rest|) + Zeros(56); }
  }

  class Context {
    var h: Regs
    var len: nat
    const buf: array<byte>
    var blen: nat

    /** The whole blocks of the message so far; they are folded into h and the rest is in buf. */
    ghost var done: seq<byte>

    ghost predicate Valid()
      reads this, buf
    {
      && buf.Length == 64 && blen < 64 && |done| % 64 == 0 && len == 8 * |done|
      && len + 8 * blen < 0x1_0000_0000_0000_0000 && Digested(done, h)
    }

    /** The message so far. */
    ghost function Message(): seq<byte>
      requires Valid()
      reads this, buf
    {
      done + buf[..blen]
    }

    /** sha256_init */
    constructor ()
      ensures Valid() && Message() == [] && fresh(buf)
    {
      h, len, blen, done := IV, 0, 0, [];
      buf := new byte[64](_ => 0);
      new;
      DigestedNone();
    }

    /** A copy of the whole context, as the handshake takes it. */
    constructor Snapshot(c: Context)
      requires c.Valid()
      ensures Valid() && Message() == c.Message() && fresh(buf)
    {
      h, len, blen, done := c.h, c.len, c.blen, c.done;
      buf := new byte[64](i requires 0 <= i < 64 && c.buf.Length == 64 reads c.buf => c.buf[i]);
      new;
      assert buf[..] == c.buf[..];
    }

    /** The block in buf is folded into h. */
    method Absorb()
      requires buf.Length == 64 && Digested(done, h)
      modifies this`h, this`done
      ensures Digested(done, h) && done == old(done) + buf[..]
    {
      ghost var was := h;
      h := Transform(h, buf[..]);
      DigestedBlock(done, was, buf[..], h);
      done := done + buf[..];
    }

    /** One turn of the loop of sha256_update. */
    method Feed(x: byte)
      requires Valid() && 8 * (|Message()| + 1) < 0x1_0000_0000_0000_0000
      modifies this, buf
      ensures Valid() && Message() == old(Message()) + [x]
    {
      ghost var rest := buf[..blen];
      buf[blen] := x;
      blen := blen + 1;
      assert buf[..blen] == rest + [x];
      if blen == 64 {
        assert buf[..] == buf[..blen];
        Absorb();
        len := len + 512;
        blen := 0;
      }
    }

    /** sha256_update: however the message is cut, the context is that of the whole. */
    method Update(d: seq<byte>)
      requires Valid() && 8 * (|Message()| + |d|) < 0x1_0000_0000_0000_0000
      modifies this, buf
      ensures Valid() && Message() == old(Message()) + d
    {
      var i := 0;
      while i < |d|
        invariant 0 <= i <= |d| && Valid() && Message() == old(Message()) + d[..i]
      {
        Feed(d[i]);
        assert d[..i + 1] == d[..i] + [d[i]];
        i := i + 1;
      }
      assert d[..i] == d;
    }

    /** Zeros up to position k of the buffer. */
    method Fill(k: nat)
      requires buf.Length == 64 && blen <= k <= 64
      modifies buf, this`blen
      ensures blen == k && buf[..k] == old(buf[..blen]) + Zeros(k - old(blen))
    {
      ghost var b, s := blen, buf[..blen];
      while blen < k
        invariant b <= blen <= k && buf[..b] == s && forall i | b <= i < blen :: buf[i] == 0
      {
        buf[blen] := 0;
        blen := blen + 1;
      }
    }

    /** The end mark, and a block of its own for it when the length does not fit behind it. */
    method Mark()
      requires Valid()
      modifies this, buf
      ensures blen <= 56 && Digested(done, h)
      ensures Pad(old(Message())) == done + (buf[..blen] + Zeros(56 - blen) + Length(8 * |old(Message())|))
    {
      ghost var m, rest := Message(), buf[..blen];
      PadTail(m, done, rest);
      buf[blen] := 0x80;
      blen := blen + 1;
      assert buf[..blen] == rest + [0x80];
      if blen > 56 {
        Fill(64);
        assert buf[..64] == buf[..];
        Absorb();
        blen := 0;
        assert buf[..blen] + Zeros(56) == Zeros(56);
      }
    }

    method PutLength(bits: nat)
      requires buf.Length == 64
      modifies buf
      ensures buf[..] == old(buf[..56]) + Length(bits)
    {
      var i := 0;
      while i < 8
        invariant 0 <= i <= 8 && buf[..56] == old(buf[..56]) && forall j | 0 <= j < i :: buf[56 + j] == LengthByte(bits, j)
      {
        buf[56 + i] := LengthByte(bits, i);
        i := i + 1;
      }
    }

    /** sha256_final up to the last block. */
    method Close()
      requires Valid()
      modifies this, buf
      ensures Digested(Pad(old(Message())), h)
    {
      var bits := len + 8 * blen;
      assert bits == 8 * |Message()|;
      Mark();
      ghost var rest := buf[..blen] + Zeros(56 - blen);
      Fill(56);
      PutLength(bits);
      assert buf[..] == rest + Length(bits);
      Absorb();
    }

    /** sha256_final: the digest of the whole message. */
    method Final(out: array<byte>)
      requires Valid() && out.Length == 32 && out != buf
      modifies this, buf, out
      ensures out[..] == Hash(old(Message()))
    {
      Close();
      Emit(out, h);
      assert Folded(0);
    }
  }

  /** The words of the hash value, big-endian. */
  method Emit(out: array<byte>, h: Regs)
    requires out.Length == 32
    modifies out
    ensures out[..] == Digest(h)
  {
    var i := 0;
    while i < 8
      invariant 0 <= i <= 8 && forall j | 0 <= j < 4 * i :: out[j] == Shift(At(h, j / 4), 24 - 8 * (j % 4)) % 256
    {
      var x := At(h, i);
      out[4 * i] := Shift(x, 24) % 256;
      out[4 * i + 1] := Shift(x, 16) % 256;
      out[4 * i + 2] := Shift(x, 8) % 256;
      out[4 * i + 3] := x % 256;
      i := i + 1;
    }
  }

  /** sha256 */
  method Sha256(d: seq<byte>, out: array<byte>)
    requires out.Length == 32 && 8 * |d| < 0x1_0000_0000_0000_0000
    modifies out
    ensures out[..] == Hash(d)
  {
    var c := new Context();
    c.Update(d);
    assert [] + d == d;
    c.Final(out);
  }
}
