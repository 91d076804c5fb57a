/** Section 5 of RFC 7748 over plain integers: the field modulo 2^255 - 19, little-endian
    encodings, the clamped scalar and the Montgomery ladder with its lazy swap.
    Nothing here knows about limbs, carries or machine words. */
module Rfc7748 {
  import opened Bits

  const P: int := 0x7fffffffffffffffffffffffffffffffffffffffffffffffffffffffffffffed

  ghost function Add(a: int, b: int): int { (a + b) % P }
  ghost function Sub(a: int, b: int): int { (a - b) % P }
  ghost function Mul(a: int, b: int): int { (a * b) % P }

  /** a^n modulo P by repeated multiplication. */
  ghost function Pow(a: int, n: nat): int
  {
    if n == 0 then 1 else Mul(a, Pow(a, n - 1))
  }

  /** Bit t of a natural number. */
  ghost function Bit(n: nat, t: nat): (b: nat)
    ensures b < 2
  {
    n / Pow2(t) % 2
  }

  /** decodeScalar25519: clear the three low bits and bit 255, set bit 254. */
  ghost function Clamp(k: seq<byte>): seq<byte>
    requires |k| == 32
  {
    k[0 := k[0] - k[0] % 8][31 := k[31] % 64 + 64]
  }

  datatype Ladder = Ladder(x2: int, z2: int, x3: int, z3: int)

  /** cswap of both coordinates. */
  ghost function Swap(b: nat, s: Ladder): Ladder
  {
    if b == 1 then Ladder(s.x3, s.z3, s.x2, s.z2) else s
  }

  /** The arithmetic of one ladder step. */
  ghost function Step(x1: int, s: Ladder): Ladder
  {
    var a := Add(s.x2, s.z2);
    var aa := Mul(a, a);
    var b := Sub(s.x2, s.z2);
    var bb := Mul(b, b);
    var e := Sub(aa, bb);
    var c := Add(s.x3, s.z3);
    var d := Sub(s.x3, s.z3);
    var da := Mul(d, a);
    var cb := Mul(c, b);
    Ladder(Mul(aa, bb), Mul(e, Add(Mul(121665, e), aa)),
           Mul(Add(da, cb), Add(da, cb)), Mul(x1, Mul(Sub(da, cb), Sub(da, cb))))
  }

  /** The state and the pending swap after handling bits 254 down to t of the scalar. */
  ghost function Run(k: nat, u: int, t: nat): (Ladder, nat)
    requires t <= 255
    decreases 255 - t, k
  {
    if t == 255 then (Ladder(1, 0, u, 1), 0) else
      var (s, swap) := Run(k, u, t + 1);
      (Step(u, Swap((swap + Bit(k, t)) % 2, s)), Bit(k, t))
  }

  /** X25519(k, u) as an integer below P. */
  ghost function X25519(k: seq<byte>, u: seq<byte>): (r: int)
    requires |k| == |u| == 32
    ensures 0 <= r < P
  {
    var (s, swap) := Run(Decode(Clamp(k)), Decode(u) % 0x8000000000000000000000000000000000000000000000000000000000000000 % P, 0);
    var f := Swap(swap, s);
    Mul(f.x2, Pow(f.z2, P - 2))
  }
}
