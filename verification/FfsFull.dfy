/** A full volume of kernel/vfs/ffs.c: allocation does not stop at the end of the partition. */
module FfsFull {
  import opened Bits
  import opened Bitmap
  import opened FfsModel
  import opened FfsSpace
  import opened FfsVolume
  import opened FfsFormat
  import opened FfsFiles

  /** On a sound volume whose files lie in the partition, ffs_alloc_data_block never reports that it is full, and gives a
      block behind the partition exactly if free_blocks is 0. */
  method NextBlock(vol: Volume) returns (b: nat)
    requires vol.Laid() && Sound(vol.Now()) && vol.Counted() && AllInside(vol.Now(), vol.total)
    modifies vol`disk, vol`freeBlocks, vol.bmap
    ensures b != 0 && (b >= vol.total <==> old(vol.freeBlocks) == 0)
  {
    ClearBehind(vol.Now(), vol.total);
    b := vol.AllocBlock();
  }

  ghost function UpTo(n: nat): (r: set<nat>)
    ensures |r| == n && forall s: nat :: s in r <==> s < n
  {
    if n == 0 then {} else UpTo(n - 1) + {n - 1}
  }

  /** A file of n blocks, more than the direct ones, needs one block more. */
  lemma BlocksOf(n: nat)
    requires DIRECT < n <= SLOTS
    ensures |Touched(0, 4096 * n)| == n + 1
  {
    assert Touched(0, 4096 * n) == UpTo(n) + {SLOTS};
  }

  lemma EmptyKeys(v: Vol, i: nat)
    requires i in v.inodes && v.inodes[i] == EMPTY
    ensures Keys(v, i) == {}
  {
    forall s: nat | s <= SLOTS ensures R(v, i, s) == 0 {}
  }

  lemma AllTaken(v: Vol, w: Vol, i: nat, n: nat, total: nat, free: nat, left: nat)
    requires Pays(v, w, i, total, free, left) && Keys(v, i) == {} && |Keys(w, i)| == free
    ensures left == 0
  {
    assert PaysKey(0);
    assert Keys(w, i) - Keys(v, i) == Keys(w, i);
  }

  /** A new inode. */
  method NewFile(vol: Volume) returns (ctx: Context)
    requires vol.Laid() && Sound(vol.Now()) && vol.Counted() && AllInside(vol.Now(), vol.total) && 2 !in vol.inodes
    modifies vol`inodes
    ensures fresh(ctx) && ctx.ino == 2 && ctx.offset == 0 && ctx.inode == EMPTY && 2 in vol.inodes && vol.inodes[2] == EMPTY
    ensures Sound(vol.Now()) && vol.Counted() && AllInside(vol.Now(), vol.total) && Keys(vol.Now(), 2) == {}
  {
    ghost var v := vol.Now();
    vol.inodes := vol.inodes[2 := EMPTY];
    NewInode(v, vol.Now(), 2);
    SameTakes(v, vol.Now(), 2, {}, true, vol.total, 0);
    EmptyKeys(vol.Now(), 2);
    ctx := new Context(2, EMPTY);
  }

  /** Every formatted volume that one file can fill, filled by one write: still sound, with nothing left. */
  method Fill(dev: seq<Sector>, total: nat) returns (vol: Volume)
    requires |dev| == DataStart(total) + 8 * ((total + 7) / 8) <= 0x1_0000_0000
    requires total >= 32 && DIRECT < total - DataStart(total) - 3 <= SLOTS
    ensures fresh(vol) && fresh(vol.bmap) && vol.total == total && vol.Laid() && Sound(vol.Now()) && vol.Counted()
    ensures AllInside(vol.Now(), total) && vol.freeBlocks == 0
  {
    vol := Format(dev, total);
    var ctx := NewFile(vol);
    ghost var v, free := vol.Now(), vol.freeBlocks;
    var n: nat := total - DataStart(total) - 3;
    BlocksOf(n);
    var buf: seq<byte> := seq(4096 * n, _ => 0);
    var status;
    ghost var done;
    status, done := vol.Write(ctx, buf);
    assert Touched(0, |buf|) - {} == Touched(0, |buf|) == {} + Touched(0, |buf|);
    AllTaken(v, vol.Now(), 2, n, total, free, vol.freeBlocks);
  }

  /** The smallest volume: 32 blocks, of which 24 are free after formatting. The block after the last comes next. */
  method Overrun(dev: seq<Sector>) returns (vol: Volume, b: nat)
    requires |dev| == 38
    ensures fresh(vol) && vol.total == 32 && b >= 32
  {
    vol := Fill(dev, 32);
    b := NextBlock(vol);
  }
}
