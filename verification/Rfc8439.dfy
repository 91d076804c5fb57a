/** Section 2.5 of RFC 8439 over plain integers: the Poly1305 one-time authenticator. */
module Rfc8439 {
  import opened Bits

  const P: int := 0x3fffffffffffffffffffffffffffffffb
  const CLAMP: nat := 0x0ffffffc0ffffffc0ffffffc0fffffff

  ghost function R(key: seq<byte>): nat
    requires |key| == 32
  {
    And(Decode(key[..16]), CLAMP)
  }

  ghost function S(key: seq<byte>): nat
    requires |key| == 32
  {
    Decode(key[16..])
  }

  /** The next block with a one bit after its last byte. */
  ghost function Block(msg: seq<byte>): nat
  {
    Decode((if |msg| < 16 then msg else msg[..16]) + [1])
  }

  ghost function Rest(msg: seq<byte>): seq<byte> { if |msg| < 16 then [] else msg[16..] }

  /** One block is added to the accumulator, which is then multiplied by r. */
  ghost function Step(acc: nat, block: nat, r: nat): nat { (acc + block) * r % P }

  /** The accumulator after the blocks of msg, starting from acc. */
  ghost function Accumulate(acc: nat, msg: seq<byte>, r: nat): nat
    decreases |msg|
  {
    if msg == [] then acc else Accumulate(Step(acc, Block(msg), r), Rest(msg), r)
  }

  /** The accumulator and s added, to 128 bits. */
  ghost function Sealed(acc: nat, s: nat): nat { (acc + s) % 0x1_0000_0000_0000_0000_0000_0000_0000_0000 }

  /** The tag as a 128-bit number. */
  ghost function Tag(key: seq<byte>, msg: seq<byte>): nat
    requires |key| == 32
  {
    Sealed(Accumulate(0, msg, R(key)), S(key))
  }
}
