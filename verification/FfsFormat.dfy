/** ffs_format: the state from which every run starts. */
module FfsFormat {
  import opened Bits
  import opened Bitmap
  import opened FfsModel
  import opened FfsSpace
  import opened FfsVolume
  import opened FfsDirectory
  import Dir = FfsDir

  /** One inode for eight blocks, at least 64 and at most 65535. */
  function InodeCount(total: nat): nat
  {
    var n := total / 8;
    if n < 64 then 64 else if n > 65535 then 65535 else n
  }

  /** Where the parts of a volume start: the inode bitmap after the boot block and the superblock, the block bitmap, the inode
      table and the data. */
  datatype Layout = Layout(inodeMap: nat, blockMap: nat, table: nat, data: nat)

  function Plan(total: nat): Layout
  {
    var imapBlocks := ((InodeCount(total) + 7) / 8 + 4095) / 4096;
    var bmapBlocks := ((total + 7) / 8 + 4095) / 4096;
    var tableBlocks := (InodeCount(total) + 31) / 32;
    Layout(2, 2 + imapBlocks, 2 + imapBlocks + bmapBlocks, 2 + imapBlocks + bmapBlocks + tableBlocks)
  }

  function DataStart(total: nat): nat { Plan(total).data }

  /** The block, from the start of a bitmap, that holds bit x. */
  function BitBlock(x: nat): nat { x / 8 / 4096 }

  /** The block, from the start of the inode table, that holds the 128 bytes of inode i. */
  function InodeBlock(i: nat): nat { i / 32 }

  /** Behind two blocks the parts follow each other, and each has room for what it holds: the whole bytes with a bit for each
      inode, those with a bit for each block, and the inodes. */
  ghost predicate Roomy(l: Layout, count: nat, total: nat)
  {
    && 2 <= l.inodeMap <= l.blockMap <= l.table <= l.data
    && (forall x: nat | x < 8 * ((count + 7) / 8) :: l.inodeMap + BitBlock(x) < l.blockMap)
    && (forall x: nat | x < 8 * ((total + 7) / 8) :: l.blockMap + BitBlock(x) < l.table)
    && (forall i: nat | i < count :: l.table + InodeBlock(i) < l.data)
  }

  lemma Ceiling(n: nat, d: nat, x: nat)
    requires 0 < d && x < n
    ensures x / d < (n + d - 1) / d && (n - 1) / d + 1 == (n + d - 1) / d
  {
    var q := (n - 1) / d;
    assert n + d - 1 == d * (q + 1) + (n - 1) % d;
    DivMod(n + d - 1, d, q + 1, (n - 1) % d);
    DivMonotone(x, n - 1, d);
  }

  lemma DivMonotone(x: nat, y: nat, d: nat)
    requires x <= y && 0 < d
    ensures x / d <= y / d
  {
    var a, b := x / d, y / d;
    assert d * (a - b) == d * a - d * b;
    AtMostZero(d, a - b);
  }

  lemma AtMostZero(d: int, k: int)
    requires 0 < d && d * k < d
    ensures k <= 0
  {}

  lemma BitCeiling(n: nat, x: nat)
    requires 0 < n && x < 8 * ((n + 7) / 8)
    ensures BitBlock(x) < ((n + 7) / 8 + 4095) / 4096 && BitBlock(n - 1) + 1 == ((n + 7) / 8 + 4095) / 4096
  {
    Ceiling(n, 8, n - 1);
    Ceiling((n + 7) / 8, 4096, x / 8);
  }

  /** One inode for eight blocks, within the two limits. */
  lemma InodeCountIs(total: nat)
    ensures var n := InodeCount(total);
      64 <= n <= 65535 && (8 * n <= total || n == 64) && (total < 8 * (n + 1) || n == 65535)
  {}

  /** The layout of ffs_format has room for everything. */
  lemma PlanRoomy(total: nat)
    ensures Roomy(Plan(total), InodeCount(total), total)
    ensures var p := Plan(total); 2 == p.inodeMap < p.blockMap && (total > 0 ==> p.blockMap < p.table) && p.table < p.data
  {
    var n := InodeCount(total);
    InodeCountIs(total);
    forall x: nat | x < 8 * ((n + 7) / 8) ensures 2 + BitBlock(x) < Plan(total).blockMap { BitCeiling(n, x); }
    forall x: nat | x < 8 * ((total + 7) / 8) ensures Plan(total).blockMap + BitBlock(x) < Plan(total).table { BitCeiling(total, x); }
    forall i: nat | i < n ensures Plan(total).table + InodeBlock(i) < Plan(total).data { Ceiling(n, 32, i); }
  }

  /** ... and no other starts its parts earlier. */
  lemma PlanLeast(total: nat, l: Layout)
    requires total > 0 && Roomy(l, InodeCount(total), total)
    ensures var p := Plan(total); p.inodeMap <= l.inodeMap && p.blockMap <= l.blockMap && p.table <= l.table && p.data <= l.data
  {
    var n := InodeCount(total);
    BitCeiling(n, n - 1);
    BitCeiling(total, total - 1);
    Ceiling(n, 32, n - 1);
    assert l.inodeMap + BitBlock(n - 1) < l.blockMap;
    assert l.blockMap + BitBlock(total - 1) < l.table;
    assert l.table + InodeBlock(n - 1) < l.data;
  }

  /** The inode of any number lies within its block of the table, which lies before the data. */
  lemma InodePlace(total: nat, i: nat)
    requires i < InodeCount(total)
    ensures var b := Plan(total).table + i / 32;
      Plan(total).table <= b < DataStart(total) && 128 * (i % 32) + 128 <= 4096 && 4096 * (i / 32) + 128 * (i % 32) == 128 * i
  {
    PlanRoomy(total);
    assert InodeBlock(i) == i / 32;
  }

  const DOT: Dir.Entry := Dir.Entry([46], 1, 2)
  const DOTDOT: Dir.Entry := Dir.Entry([46, 46], 1, 2)

  /** A block of zeros with the two records of the root directory. */
  function RootBlock(zero: Sector): Sector
  {
    Dir.PutRec(Dir.PutRec(zero, 0, 12, DOT), 12, 4084, DOTDOT)
  }

  lemma RootTiles()
    ensures Dir.Tiles(RootBlock(ZERO), 0) && Dir.Entries(RootBlock(ZERO), 0) == multiset{DOT, DOTDOT}
  {
    var d, c := Dir.PutRec(ZERO, 0, 12, DOT), RootBlock(ZERO);
    Dir.PutIs(ZERO, 0, 12, DOT);
    Dir.PutIs(d, 12, 4084, DOTDOT);
    Dir.RecordAgree(d, c, 0);
    assert Dir.Tiles(c, 4096);
    assert multiset{DOT} + multiset{DOTDOT} == multiset{DOT, DOTDOT};
    Dir.TwoRecords(c, 0, 12, 4096, multiset{DOT, DOTDOT});
  }

  /** A volume whose bitmap is clear and whose one inode is empty. */
  lemma Blank(v: Vol)
    requires 0 < v.start && |v.disk| == v.start + 8 * |v.bmap| <= 0x1_0000_0000 && |v.bmap| > 0
    requires (forall k | 0 <= k < |v.bmap| :: v.bmap[k] == 0) && v.inodes == map[1 := EMPTY]
    ensures Sound(v) && Contents(v, 1) == [] && forall x: nat | x < 8 * |v.bmap| :: !Bit(v.bmap, x)
  {
    forall x: nat | x < 8 * |v.bmap| ensures !Bit(v.bmap, x) { ZeroBit(x % 8); }
    forall i: nat, s: nat ensures R(v, i, s) == 0 {}
  }

  lemma {:induction false} AllClear(m: seq<byte>, n: nat)
    requires 0 < n <= 8 * |m| && forall x: nat | x < 8 * |m| :: !Bit(m, x)
    ensures Clear(m, n) == n - 1
  {
    if n > 1 { AllClear(m, n - 1); }
  }

  lemma RootAttached(v: Vol, w: Vol, x: nat)
    requires Sound(v) && v.inodes == map[1 := EMPTY] && 0 < x < 8 * |v.bmap| && !Bit(v.bmap, x) && Marked(v.bmap, w.bmap, {0, x}, true)
    requires w == Vol(v.disk[v.start + x := ZERO], w.bmap, v.start, map[1 := EMPTY.(blocks := EMPTY.blocks[0 := v.start + x])])
    ensures Sound(w) && R(w, 1, 0) == v.start + x < |w.disk| && forall s: nat | s != 0 :: R(w, 1, s) == 0
  {
    assert w.inodes == v.inodes[1 := v.inodes[1].(blocks := v.inodes[1].blocks[0 := v.start + x])];
    AttachDirect(v, 1, 0, x, w.bmap, w);
    Attached(v, w, 1, 0, x);
    RootRefs(v, w, x);
  }

  lemma RootRefs(v: Vol, w: Vol, x: nat)
    requires v.inodes == map[1 := EMPTY] && Attaches(v, w, 1, 0, x)
    ensures R(w, 1, 0) == v.start + x && forall s: nat | s != 0 :: R(w, 1, s) == 0
  {
    forall s: nat | s != 0 ensures R(w, 1, s) == 0 { assert R(w, 1, s) == R(v, 1, s) == 0; }
  }

  lemma RootStored(w: Vol, u: Vol, b: nat, blk: Sector)
    requires Sound(w) && w.inodes.Keys == {1} && w.inodes[1].size == 0 && b == R(w, 1, 0) && 0 < b < |w.disk|
    requires u == w.(disk := w.disk[b := blk], inodes := w.inodes[1 := w.inodes[1].(size := 4096)])
    ensures Sound(u) && Contents(u, 1) == blk
  {
    assert Overlay(w.disk[b], 0, blk) == blk;
    StoreEffect(w, u, 1, 0, blk);
    assert Contents(w, 1) == [] && Splice([], 0, blk) == blk;
  }

  lemma RootDirectory(c: seq<byte>)
    requires c == RootBlock(ZERO)
    ensures IsDir(c) && All(c) == multiset{DOT, DOTDOT}
  {
    RootTiles();
    assert IsDir([]) && Lists([]) == [];
    assert Splice([], 0, RootBlock(ZERO)) == c;
    Extended([], RootBlock(ZERO), multiset{DOT, DOTDOT});
  }

  /** The volume before the root block is allocated. */
  method Blanked(dev: seq<Sector>, total: nat, start: nat) returns (vol: Volume)
    requires 0 < start < total && |dev| == start + 8 * ((total + 7) / 8) <= 0x1_0000_0000
    ensures fresh(vol) && fresh(vol.bmap) && vol.Laid() && vol.start == start && vol.total == total && vol.inodes == map[1 := EMPTY]
    ensures Sound(vol.Now()) && vol.Counted() && vol.freeBlocks == total - start - 1
    ensures forall x: nat | x < 8 * vol.bmap.Length :: !Bit(vol.bmap[..], x)
  {
    var bmap := new byte[(total + 7) / 8](_ => 0);
    vol := new Volume(dev, start, total, total - start - 1, bmap);
    vol.inodes := map[1 := EMPTY];
    Blank(vol.Now());
    AllClear(bmap[..], total - start);
  }

  /** The root directory is allocated and written. */
  method Root(vol: Volume)
    requires vol.Laid() && vol.inodes == map[1 := EMPTY] && Sound(vol.Now()) && vol.Counted() && vol.freeBlocks > 0
    modifies vol, vol.bmap
    ensures Sound(vol.Now()) && vol.Counted() && vol.freeBlocks == old(vol.freeBlocks) - 1 && vol.inodes.Keys == {1}
    ensures Contents(vol.Now(), 1) == RootBlock(ZERO) && AllInside(vol.Now(), vol.total)
  {
    ghost var v := vol.Now();
    var b := vol.AllocBlock();
    vol.inodes := map[1 := EMPTY.(blocks := EMPTY.blocks[0 := b])];
    ghost var w := vol.Now();
    RootAttached(v, w, b - vol.start);
    vol.disk := vol.disk[b := RootBlock(ZERO)];
    vol.inodes := vol.inodes[1 := vol.inodes[1].(size := 4096)];
    RootStored(w, vol.Now(), b, RootBlock(ZERO));
    forall i: nat, s: nat ensures R(vol.Now(), i, s) < vol.total { assert R(vol.Now(), i, s) == R(w, i, s); }
  }

  /** ffs_format: fails exactly on partitions that are too small; else an empty root directory, and free_blocks right. */
  method Format(dev: seq<Sector>, total: nat) returns (vol: Volume?)
    requires |dev| == DataStart(total) + 8 * ((total + 7) / 8) <= 0x1_0000_0000
    ensures vol == null <==> total < 32 || DataStart(total) + 2 >= total
    ensures vol != null ==> vol.Laid() && Sound(vol.Now()) && vol.Counted() && vol.freeBlocks == total - DataStart(total) - 2
    ensures vol != null ==> vol.inodes.Keys == {1} && IsDir(Contents(vol.Now(), 1)) && All(Contents(vol.Now(), 1)) == multiset{DOT, DOTDOT}
    ensures vol != null ==> vol.total == total && vol.start == DataStart(total) && AllInside(vol.Now(), total) && fresh(vol) && fresh(vol.bmap)
  {
    if total < 32 || DataStart(total) + 2 >= total { return null; }
    vol := Blanked(dev, total, DataStart(total));
    Root(vol);
    RootDirectory(Contents(vol.Now(), 1));
  }
}
