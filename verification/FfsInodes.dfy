/** The inode bitmap of kernel/vfs/ffs.c. */
module FfsInodes {
  import opened Bits
  import opened Bitmap
  import opened FfsVolume

  /** The bits of m below count are the inodes in use. */
  ghost predicate Matches(m: seq<byte>, count: nat, used: set<nat>)
  {
    && count <= 8 * |m| && (forall i: nat | i in used :: 0 < i < count)
    && forall x: nat {:trigger Bit(m, x)} | 0 < x < count :: Bit(m, x) <==> x in used
  }

  lemma MatchesAlloc(m: seq<byte>, now: seq<byte>, count: nat, used: set<nat>, i: nat)
    requires 0 < i < count
    ensures Matches(m, count, used) && Marked(m, now, {0, i}, true) ==> Matches(now, count, used + {i})
  {}

  lemma MatchesFree(m: seq<byte>, now: seq<byte>, count: nat, used: set<nat>, i: nat)
    requires 0 < i < count
    ensures Matches(m, count, used) && Marked(m, now, {i}, false) ==> Matches(now, count, used - {i})
  {}

  class InodeMap {
    const bits: array<byte>
    const count: nat
    var free: nat

    constructor (map_: array<byte>, n: nat, left: nat)
      ensures bits == map_ && count == n && free == left
    {
      bits, count, free := map_, n, left;
    }

    ghost predicate Laid()
      reads this
    {
      1 < count <= 65535 && count <= 8 * bits.Length
    }

    /** free_inodes is the number of inodes that are not marked. */
    ghost predicate Counted()
      requires Laid()
      reads this, bits
    {
      free == Clear(bits[..], count)
    }

    /** ffs_alloc_inode: 0 exactly if the bitmap is full; a number the inode table has exactly if free_inodes > 0. */
    method Alloc() returns (ino: nat)
      requires Laid()
      modifies this`free, bits
      ensures old(Counted()) ==> Counted() && (old(free) > 0 <==> 0 < ino < count)
      ensures old(Counted()) ==> free == if 0 < ino < count then old(free) - 1 else old(free)
      ensures ino == 0 <==> forall x: nat | 0 < x < 8 * bits.Length :: Bit(old(bits[..]), x)
      ensures ino != 0 ==> ino < 8 * bits.Length && !Bit(old(bits[..]), ino)
      ensures forall x: nat | 0 < x < ino && x < 8 * bits.Length :: Bit(old(bits[..]), x)
      ensures Marked(old(bits[..]), bits[..], {0, ino}, true)
    {
      ino := Bitmap.Alloc(bits);
      AllocCount(old(bits[..]), bits[..], ino, count);
      if ino == 0 { return; }
      if free > 0 { free := free - 1; }
    }

    /** ffs_free_inode */
    method Free(ino: nat)
      requires Laid()
      modifies this`free, bits
      ensures ino == 0 || ino >= count ==> bits[..] == old(bits[..]) && free == old(free)
      ensures 0 < ino < count ==> Marked(old(bits[..]), bits[..], {ino}, false) && free == old(free) + 1
      ensures 0 < ino < count && Bit(old(bits[..]), ino) && old(Counted()) ==> Counted()
    {
      if ino == 0 || ino >= count { return; }
      Bitmap.Free(bits, ino);
      if Bit(old(bits[..]), ino) { ClearFreed(old(bits[..]), bits[..], ino, count); }
      free := free + 1;
    }
  }
}
