/** Sections 5.1.1 and 6.2 of FIPS 180-4: SHA-256 as a fold of the compression function over the padded message. */
module Fips180 {
  import opened Bits

  /** The eight working variables, or the hash value: 32-bit words. */
  datatype Regs = Regs(a: nat, b: nat, c: nat, d: nat, e: nat, f: nat, g: nat, h: nat)

  function Shl(x: nat, n: nat): nat
    decreases n, x
  {
    if n == 0 then x else Shl(2 * x % 0x1_0000_0000, n - 1)
  }

  function Not(x: nat): nat { if x < 0x1_0000_0000 then 0xFFFF_FFFF - x else 0 }
  function Plus(x: nat, y: nat): nat { (x + y) % 0x1_0000_0000 }

  function Ror(x: nat, n: nat): nat
    requires n <= 32
  {
    Or(Shift(x, n), Shl(x, 32 - n))
  }

  function Xor3(x: nat, y: nat, z: nat): nat { Xor(Xor(x, y), z) }
  function Ch(x: nat, y: nat, z: nat): nat { Xor(And(x, y), And(Not(x), z)) }
  function Maj(x: nat, y: nat, z: nat): nat { Xor3(And(x, y), And(x, z), And(y, z)) }
  function Sum0(x: nat): nat { Xor3(Ror(x, 2), Ror(x, 13), Ror(x, 22)) }
  function Sum1(x: nat): nat { Xor3(Ror(x, 6), Ror(x, 11), Ror(x, 25)) }
  function Sigma0(x: nat): nat { Xor3(Ror(x, 7), Ror(x, 18), Shift(x, 3)) }
  function Sigma1(x: nat): nat { Xor3(Ror(x, 17), Ror(x, 19), Shift(x, 10)) }

  const ROW0: seq<nat> := [0x428a2f98, 0x71374491, 0xb5c0fbcf, 0xe9b5dba5, 0x3956c25b, 0x59f111f1, 0x923f82a4, 0xab1c5ed5]
  const ROW1: seq<nat> := [0xd807aa98, 0x12835b01, 0x243185be, 0x550c7dc3, 0x72be5d74, 0x80deb1fe, 0x9bdc06a7, 0xc19bf174]
  const ROW2: seq<nat> := [0xe49b69c1, 0xefbe4786, 0x0fc19dc6, 0x240ca1cc, 0x2de92c6f, 0x4a7484aa, 0x5cb0a9dc, 0x76f988da]
  const ROW3: seq<nat> := [0x983e5152, 0xa831c66d, 0xb00327c8, 0xbf597fc7, 0xc6e00bf3, 0xd5a79147, 0x06ca6351, 0x14292967]
  const ROW4: seq<nat> := [0x27b70a85, 0x2e1b2138, 0x4d2c6dfc, 0x53380d13, 0x650a7354, 0x766a0abb, 0x81c2c92e, 0x92722c85]
  const ROW5: seq<nat> := [0xa2bfe8a1, 0xa81a664b, 0xc24b8b70, 0xc76c51a3, 0xd192e819, 0xd6990624, 0xf40e3585, 0x106aa070]
  const ROW6: seq<nat> := [0x19a4c116, 0x1e376c08, 0x2748774c, 0x34b0bcb5, 0x391c0cb3, 0x4ed8aa4a, 0x5b9cca4f, 0x682e6ff3]
  const ROW7: seq<nat> := [0x748f82ee, 0x78a5636f, 0x84c87814, 0x8cc70208, 0x90befffa, 0xa4506ceb, 0xbef9a3f7, 0xc67178f2]
  const K: seq<nat> := ROW0 + ROW1 + ROW2 + ROW3 + ROW4 + ROW5 + ROW6 + ROW7

  const IV: Regs := Regs(0x6a09e667, 0xbb67ae85, 0x3c6ef372, 0xa54ff53a, 0x510e527f, 0x9b05688c, 0x1f83d9ab, 0x5be0cd19)

  /** Word t of a block, big-endian. */
  function Word(m: seq<byte>, t: nat): nat
    requires 4 * t + 4 <= |m|
  {
    0x100_0000 * (m[4 * t] as int) + 0x1_0000 * (m[4 * t + 1] as int) + 0x100 * (m[4 * t + 2] as int) + m[4 * t + 3] as int
  }

  /** The message schedule. */
  function W(m: seq<byte>, t: nat): nat
    requires |m| == 64
  {
    if t < 16 then Word(m, t) else Plus(Plus(Sigma1(W(m, t - 2)), W(m, t - 7)), Plus(Sigma0(W(m, t - 15)), W(m, t - 16)))
  }

  function T1(v: Regs, k: nat, w: nat): nat { Plus(Plus(Plus(v.h, Sum1(v.e)), Ch(v.e, v.f, v.g)), Plus(k, w)) }
  function T2(v: Regs): nat { Plus(Sum0(v.a), Maj(v.a, v.b, v.c)) }

  function Step(v: Regs, k: nat, w: nat): Regs
  {
    Regs(Plus(T1(v, k, w), T2(v)), v.a, v.b, v.c, Plus(v.d, T1(v, k, w)), v.e, v.f, v.g)
  }

  /** The working variables after t steps. */
  function Steps(v: Regs, m: seq<byte>, t: nat): Regs
    requires |m| == 64 && t <= 64
    decreases t, v
  {
    if t == 0 then v else Step(Steps(v, m, t - 1), K[t - 1], W(m, t - 1))
  }

  function Add(x: Regs, y: Regs): Regs
  {
    Regs(Plus(x.a, y.a), Plus(x.b, y.b), Plus(x.c, y.c), Plus(x.d, y.d),
         Plus(x.e, y.e), Plus(x.f, y.f), Plus(x.g, y.g), Plus(x.h, y.h))
  }

  /** The compression function on a block of 64 bytes. */
  function Compress(v: Regs, m: seq<byte>): Regs
  {
    if |m| == 64 then Add(v, Steps(v, m, |m|)) else v
  }

  /** f over all the blocks of m, from v. */
  ghost function Fold(f: (Regs, seq<byte>) -> Regs, v: Regs, m: seq<byte>): Regs
    decreases |m|
  {
    if |m| < 64 then v else f(Fold(f, v, m[..|m| - 64]), m[|m| - 64..])
  }

  ghost function Zeros(n: nat): (z: seq<byte>)
    ensures |z| == n && forall i | 0 <= i < n :: z[i] == 0
  {
    seq(n, _ => 0)
  }

  /** The bit length as eight bytes, big-endian. */
  ghost function Length(bits: nat): (s: seq<byte>)
    ensures |s| == 8 && forall i | 0 <= i < 8 :: s[i] == LengthByte(bits, i)
  {
    seq(8, i => LengthByte(bits, i))
  }

  function LengthByte(bits: nat, i: int): byte { if 0 <= i < 8 then Shift(bits, 56 - 8 * i) % 256 else 0 }

  /** A one bit, the fewest zeros that leave room for the length at the end of a block, and the length. */
  ghost function Pad(m: seq<byte>): (p: seq<byte>)
    ensures |p| % 64 == 0
  {
    m + [0x80] + Zeros((55 - |m|) % 64) + Length(8 * |m|)
  }

  /** Word i of a hash value. */
  function At(v: Regs, i: nat): nat
  {
    match i
    case 0 => v.a
    case 1 => v.b
    case 2 => v.c
    case 3 => v.d
    case 4 => v.e
    case 5 => v.f
    case 6 => v.g
    case _ => v.h
  }

  /** The digest: the eight words, big-endian. */
  ghost function Digest(v: Regs): (s: seq<byte>)
    ensures |s| == 32
  {
    seq(32, i requires 0 <= i < 32 => Shift(At(v, i / 4), 24 - 8 * (i % 4)) % 256)
  }

  ghost function Hash(m: seq<byte>): seq<byte> { Digest(Fold(Compress, IV, Pad(m))) }
}
