/** What the blocks, bitmap and inodes of an FFS volume (kernel/vfs/ffs.c) mean: each file a byte sequence. */
module FfsModel {
  import opened Bits
  import opened Bitmap

  type Sector = s: seq<byte> | |s| == 4096 witness seq(4096, _ => 0)

  const ZERO: Sector := seq(4096, _ => 0)

  /** Slots 0 to 11 are direct blocks, 12 to 1035 the pointers of the indirect block, 1036 the indirect block itself. */
  const DIRECT := 12
  const SLOTS := 1036

  datatype Inode = Inode(size: nat, blocks: seq<nat>, indirect: nat)

  const EMPTY: Inode := Inode(0, [0, 0, 0, 0, 0, 0, 0, 0, 0, 0, 0, 0], 0)

  /** The little-endian 32-bit word k of a block. */
  function Word(b: Sector, k: nat): nat
    requires k < 1024
  {
    var b0: nat, b1: nat, b2: nat, b3: nat := b[4 * k], b[4 * k + 1], b[4 * k + 2], b[4 * k + 3];
    b0 + 0x100 * b1 + 0x1_0000 * b2 + 0x100_0000 * b3
  }

  function PutWord(b: Sector, k: nat, w: nat): Sector
    requires k < 1024 && w < 0x1_0000_0000
  {
    b[4 * k := w % 0x100][4 * k + 1 := w / 0x100 % 0x100][4 * k + 2 := w / 0x1_0000 % 0x100][4 * k + 3 := w / 0x100_0000]
  }

  lemma WordDigits(w: nat)
    ensures w == w % 0x100 + 0x100 * (w / 0x100 % 0x100) + 0x1_0000 * (w / 0x1_0000 % 0x100) + 0x100_0000 * (w / 0x100_0000)
  {
    assert w / 0x1_0000 == w / 0x100 / 0x100;
    assert w / 0x100_0000 == w / 0x1_0000 / 0x100;
  }

  lemma WordPut(b: Sector, k: nat, w: nat, j: nat)
    requires k < 1024 && w < 0x1_0000_0000 && j < 1024
    ensures Word(PutWord(b, k, w), j) == if j == k then w else Word(b, j)
  {
    WordDigits(w);
  }

  /** Block numbers in an indirect block are little-endian. */
  lemma WordIs(b: Sector, k: nat)
    requires k < 1024
    ensures Word(b, k) == Decode(b[4 * k..4 * k + 4])
  {
    FourBytes(b[4 * k..4 * k + 4]);
  }

  /** A volume: its blocks, the bitmap of the blocks from start on, and the inodes in use. */
  datatype Vol = Vol(disk: seq<Sector>, bmap: seq<byte>, start: nat, inodes: map<nat, Inode>)

  ghost function Ref(disk: seq<Sector>, n: Inode, s: nat): nat
  {
    if s == SLOTS then n.indirect
    else if s < DIRECT then if s < |n.blocks| then n.blocks[s] else 0
    else if s < SLOTS && 0 < n.indirect < |disk| then Word(disk[n.indirect], s - 12)
    else 0
  }

  /** The block that slot s of inode i refers to; 0 for none. */
  ghost function R(v: Vol, i: nat, s: nat): nat
  {
    if i in v.inodes then Ref(v.disk, v.inodes[i], s) else 0
  }

  // ---------- what every operation keeps ----------

  ghost predicate Sized(v: Vol)
  {
    && 0 < v.start && |v.disk| == v.start + 8 * |v.bmap| <= 0x1_0000_0000 && |v.bmap| > 0
    && forall i | i in v.inodes :: |v.inodes[i].blocks| == DIRECT && v.inodes[i].size <= 4096 * 1036
  }

  ghost predicate InUse(v: Vol, b: nat) { v.start < b < v.start + 8 * |v.bmap| && Bit(v.bmap, b - v.start) }

  /** Every reference is to a block of the data area that the bitmap marks. */
  ghost predicate Marks(v: Vol)
  {
    forall i: nat, s: nat {:trigger R(v, i, s)} | R(v, i, s) != 0 :: InUse(v, R(v, i, s))
  }

  /** No block is referred to twice. */
  ghost predicate Unshared(v: Vol)
  {
    forall i: nat, s: nat, j: nat, t: nat {:trigger R(v, i, s), R(v, j, t)} | R(v, i, s) == R(v, j, t) != 0 :: i == j && s == t
  }

  /** Files have no holes. */
  ghost predicate Backed(v: Vol)
  {
    forall i: nat, s: nat {:trigger R(v, i, s)} | i in v.inodes && 4096 * s < v.inodes[i].size :: R(v, i, s) != 0
  }

  ghost predicate Refers(v: Vol, b: nat) { exists i: nat, s: nat :: R(v, i, s) == b }

  /** Every marked block but index 0 is referred to. */
  ghost predicate Owned(v: Vol)
  {
    forall x: nat {:trigger Bit(v.bmap, x)} | 0 < x < 8 * |v.bmap| && Bit(v.bmap, x) :: Refers(v, v.start + x)
  }

  ghost predicate Sound(v: Vol) { Sized(v) && Marks(v) && Unshared(v) && Backed(v) && Owned(v) }

  // ---------- contents ----------

  ghost function ByteAt(v: Vol, i: nat, k: nat): byte
  {
    var b := R(v, i, k / 4096);
    if b < |v.disk| then v.disk[b][k % 4096] else 0
  }

  ghost function Contents(v: Vol, i: nat): (c: seq<byte>)
    requires i in v.inodes
    ensures |c| == v.inodes[i].size && forall k | 0 <= k < |c| :: c[k] == ByteAt(v, i, k)
  {
    seq(v.inodes[i].size, k requires 0 <= k => ByteAt(v, i, k))
  }

  /** w has the files of v, but for inode i. */
  ghost predicate SameOthers(v: Vol, w: Vol, i: nat)
  {
    v.inodes.Keys == w.inodes.Keys && forall j | j in v.inodes && j != i :: Contents(w, j) == Contents(v, j)
  }

  /** Every file reads as before. */
  ghost predicate Kept(v: Vol, w: Vol)
  {
    v.inodes.Keys == w.inodes.Keys && forall j | j in v.inodes :: Contents(w, j) == Contents(v, j)
  }

  /** Marking index 0 as used changes nothing. */
  lemma Reserved(v: Vol, w: Vol)
    requires Sound(v) && w == v.(bmap := w.bmap) && Marked(v.bmap, w.bmap, {0}, true)
    ensures Sound(w) && Kept(v, w)
  {
    forall j: nat, t: nat ensures R(w, j, t) == R(v, j, t) {}
    forall j: nat, t: nat | R(w, j, t) != 0 ensures InUse(w, R(w, j, t)) { assert InUse(v, R(v, j, t)); }
    forall x: nat | 0 < x < 8 * |w.bmap| && Bit(w.bmap, x) ensures Refers(w, w.start + x) {
      assert Bit(v.bmap, x);
      var j: nat, t: nat :| R(v, j, t) == v.start + x;
      assert R(w, j, t) == w.start + x;
    }
    forall j, k: nat | j in v.inodes ensures ByteAt(w, j, k) == ByteAt(v, j, k) {}
  }

  // ---------- steps ----------

  /** w is v with the clear block start + x given to slot s of inode i; everything any slot refers to is as it was. */
  ghost predicate Attaches(v: Vol, w: Vol, i: nat, s: nat, x: nat)
  {
    && w.start == v.start && |w.disk| == |v.disk| && w.inodes.Keys == v.inodes.Keys && i in v.inodes
    && (forall j | j in v.inodes :: |w.inodes[j].blocks| == DIRECT && w.inodes[j].size == v.inodes[j].size)
    && 0 < x < 8 * |v.bmap| && !Bit(v.bmap, x) && Marked(v.bmap, w.bmap, {0, x}, true) && R(v, i, s) == 0
    && (forall j: nat, t: nat {:trigger R(w, j, t)} {:trigger R(v, j, t)} :: R(w, j, t) == if j == i && t == s then v.start + x else R(v, j, t))
    && (forall j: nat, t: nat {:trigger R(v, j, t)} | t < SLOTS && R(v, j, t) != 0 :: R(v, j, t) < |v.disk| && w.disk[R(v, j, t)] == v.disk[R(v, j, t)])
  }

  lemma AttachMarks(v: Vol, w: Vol, i: nat, s: nat, x: nat)
    requires Sized(v) && Marks(v) && Attaches(v, w, i, s, x)
    ensures Sized(w) && Marks(w)
  {
    forall j: nat, t: nat | R(w, j, t) != 0 ensures InUse(w, R(w, j, t)) {
      assert R(v, j, t) != 0 || (j == i && t == s);
    }
  }

  lemma AttachUnshared(v: Vol, w: Vol, i: nat, s: nat, x: nat)
    requires Marks(v) && Unshared(v) && Attaches(v, w, i, s, x)
    ensures Unshared(w)
  {
    forall j: nat, t: nat ensures R(v, j, t) != v.start + x {}
  }

  lemma AttachOwned(v: Vol, w: Vol, i: nat, s: nat, x: nat)
    requires Owned(v) && Attaches(v, w, i, s, x)
    ensures Owned(w)
  {
    forall y: nat | 0 < y < 8 * |w.bmap| && Bit(w.bmap, y) ensures Refers(w, w.start + y) {
      if y == x {
        assert R(w, i, s) == w.start + y;
      } else {
        assert Bit(v.bmap, y);
        var j: nat, t: nat :| R(v, j, t) == v.start + y;
        assert R(w, j, t) == w.start + y;
      }
    }
  }

  /** Taking a fresh block changes no file. */
  lemma Attached(v: Vol, w: Vol, i: nat, s: nat, x: nat)
    requires Sound(v) && Attaches(v, w, i, s, x)
    ensures Sound(w) && Kept(v, w)
  {
    AttachMarks(v, w, i, s, x);
    AttachUnshared(v, w, i, s, x);
    AttachOwned(v, w, i, s, x);
    forall j | j in v.inodes ensures Contents(w, j) == Contents(v, j) { AttachContents(v, w, i, s, x, j); }
  }

  lemma AttachContents(v: Vol, w: Vol, i: nat, s: nat, x: nat, j: nat)
    requires Sized(v) && Backed(v) && Attaches(v, w, i, s, x) && j in v.inodes
    ensures Contents(w, j) == Contents(v, j)
  {
    forall k: nat | k < v.inodes[j].size ensures ByteAt(w, j, k) == ByteAt(v, j, k) {
      var t := k / 4096;
      assert R(v, j, t) != 0 && t < SLOTS;
      assert R(w, j, t) == R(v, j, t);
    }
  }

  // ---------- the three ways to attach a block ----------

  /** Zeroing a clear block changes no reference. */
  lemma FreshRefs(v: Vol, x: nat, disk: seq<Sector>, j: nat, t: nat)
    requires Sized(v) && Marks(v) && x < 8 * |v.bmap| && !Bit(v.bmap, x) && disk == v.disk[v.start + x := ZERO] && j in v.inodes
    ensures Ref(disk, v.inodes[j], t) == R(v, j, t) && v.inodes[j].indirect != v.start + x
    ensures R(v, j, t) != v.start + x
  {
    assert R(v, j, SLOTS) == v.inodes[j].indirect;
    assert R(v, j, t) == Ref(v.disk, v.inodes[j], t);
  }

  lemma AttachDirect(v: Vol, i: nat, s: nat, x: nat, bmap: seq<byte>, w: Vol)
    requires Sized(v) && Marks(v) && i in v.inodes && s < DIRECT && v.inodes[i].blocks[s] == 0
    requires 0 < x < 8 * |v.bmap| && !Bit(v.bmap, x) && Marked(v.bmap, bmap, {0, x}, true)
    requires var n := v.inodes[i];
             w == Vol(v.disk[v.start + x := ZERO], bmap, v.start, v.inodes[i := n.(blocks := n.blocks[s := v.start + x])])
    ensures Attaches(v, w, i, s, x)
  {
    forall j: nat, t: nat
      ensures R(w, j, t) == if j == i && t == s then v.start + x else R(v, j, t)
      ensures R(v, j, t) != v.start + x
    {
      if j in v.inodes { FreshRefs(v, x, w.disk, j, t); }
    }
    assert R(v, i, s) == 0;
  }

  lemma ZeroWords(k: nat)
    requires k < 1024
    ensures Word(ZERO, k) == 0
  {}

  lemma AttachIndirect(v: Vol, i: nat, x: nat, bmap: seq<byte>, w: Vol)
    requires Sized(v) && Marks(v) && i in v.inodes && v.inodes[i].indirect == 0
    requires 0 < x < 8 * |v.bmap| && !Bit(v.bmap, x) && Marked(v.bmap, bmap, {0, x}, true)
    requires w == Vol(v.disk[v.start + x := ZERO], bmap, v.start, v.inodes[i := v.inodes[i].(indirect := v.start + x)])
    ensures Attaches(v, w, i, SLOTS, x)
  {
    forall j: nat, t: nat
      ensures R(w, j, t) == if j == i && t == SLOTS then v.start + x else R(v, j, t)
      ensures R(v, j, t) != v.start + x
    {
      if j in v.inodes { FreshRefs(v, x, w.disk, j, t); }
      if DIRECT <= t < SLOTS { ZeroWords(t - DIRECT); }
    }
    assert R(v, i, SLOTS) == 0;
  }

  /** A pointer put into the indirect block of i changes that slot of i and no other. */
  lemma PointerRefs(v: Vol, i: nat, k: nat, b: nat, disk: seq<Sector>, j: nat, t: nat)
    requires Sized(v) && Marks(v) && Unshared(v) && i in v.inodes && k < 1024 && 0 < v.inodes[i].indirect && b < |v.disk|
    requires var q := v.inodes[i].indirect; q < |v.disk| && disk == v.disk[q := PutWord(v.disk[q], k, b)]
    ensures (if j in v.inodes then Ref(disk, v.inodes[j], t) else 0) == if j == i && t == DIRECT + k then b else R(v, j, t)
    ensures t < SLOTS && R(v, j, t) != 0 ==> R(v, j, t) < |v.disk| && disk[R(v, j, t)] == v.disk[R(v, j, t)]
  {
    var q := v.inodes[i].indirect;
    assert R(v, i, SLOTS) == q;
    if j in v.inodes {
      assert R(v, j, SLOTS) == v.inodes[j].indirect;
      assert R(v, j, t) == Ref(v.disk, v.inodes[j], t);
      if DIRECT <= t < SLOTS { WordPut(v.disk[q], k, b, t - DIRECT); }
    }
  }

  lemma Zeroed(v: Vol, x: nat, u: Vol)
    requires Sized(v) && Marks(v) && Unshared(v) && 0 < x < 8 * |v.bmap| && !Bit(v.bmap, x)
    requires u == v.(disk := v.disk[v.start + x := ZERO])
    ensures Sized(u) && Marks(u) && Unshared(u)
    ensures forall j: nat, t: nat {:trigger R(u, j, t)} {:trigger R(v, j, t)} :: R(u, j, t) == R(v, j, t) && R(v, j, t) != v.start + x
  {
    forall j: nat, t: nat ensures R(u, j, t) == R(v, j, t) && R(v, j, t) != v.start + x {
      if j in v.inodes { FreshRefs(v, x, u.disk, j, t); }
    }
  }

  lemma AttachPointer(v: Vol, i: nat, k: nat, x: nat, bmap: seq<byte>, u: Vol, w: Vol)
    requires Sized(v) && Marks(v) && Unshared(v) && i in v.inodes && k < 1024 && 0 < v.inodes[i].indirect && R(v, i, DIRECT + k) == 0
    requires 0 < x < 8 * |v.bmap| && !Bit(v.bmap, x) && Marked(v.bmap, bmap, {0, x}, true)
    requires v.inodes[i].indirect < |v.disk| && u == v.(disk := v.disk[v.start + x := ZERO])
    requires var q := v.inodes[i].indirect;
             w == Vol(u.disk[q := PutWord(u.disk[q], k, v.start + x)], bmap, v.start, v.inodes)
    ensures Attaches(v, w, i, DIRECT + k, x)
  {
    Zeroed(v, x, u);
    forall j: nat, t: nat
      ensures R(w, j, t) == if j == i && t == DIRECT + k then v.start + x else R(v, j, t)
      ensures t < SLOTS && R(v, j, t) != 0 ==> R(v, j, t) < |v.disk| && w.disk[R(v, j, t)] == v.disk[R(v, j, t)]
    {
      PointerRefs(u, i, k, v.start + x, w.disk, j, t);
      assert R(u, j, t) == R(v, j, t);
    }
  }

  // ---------- storing data ----------

  /** c with d written over it from position pos on. */
  function Splice(c: seq<byte>, pos: nat, d: seq<byte>): seq<byte>
    requires pos <= |c|
  {
    c[..pos] + d + if pos + |d| < |c| then c[pos + |d|..] else []
  }

  lemma SpliceTwice(c: seq<byte>, pos: nat, d: seq<byte>, e: seq<byte>)
    requires pos <= |c|
    ensures |Splice(c, pos, d)| >= pos + |d| && Splice(Splice(c, pos, d), pos + |d|, e) == Splice(c, pos, d + e)
  {}

  /** Storing into a data block moves no reference. */
  lemma StoreRefs(v: Vol, w: Vol, i: nat, s: nat, data: Sector)
    requires Sized(v) && Marks(v) && Unshared(v) && s < SLOTS && R(v, i, s) != 0 && R(v, i, s) < |v.disk|
    requires w == v.(disk := v.disk[R(v, i, s) := data])
    ensures forall j: nat, t: nat {:trigger R(w, j, t)} {:trigger R(v, j, t)} :: R(w, j, t) == R(v, j, t)
  {
    forall j: nat, t: nat ensures R(w, j, t) == R(v, j, t) {
      if j in v.inodes {
        assert R(v, j, SLOTS) == v.inodes[j].indirect;
        assert R(v, j, t) == Ref(v.disk, v.inodes[j], t);
      }
    }
  }

  lemma StoreBytes(v: Vol, w: Vol, i: nat, s: nat, data: Sector, j: nat, k: nat)
    requires Sized(v) && Marks(v) && Unshared(v) && s < SLOTS && R(v, i, s) != 0 && R(v, i, s) < |v.disk|
    requires w == v.(disk := v.disk[R(v, i, s) := data]) && R(v, j, k / 4096) != 0
    ensures ByteAt(w, j, k) == if j == i && k / 4096 == s then data[k % 4096] else ByteAt(v, j, k)
  {
    StoreRefs(v, w, i, s, data);
    assert R(w, j, k / 4096) == R(v, j, k / 4096);
  }

  lemma SameOwned(v: Vol, w: Vol)
    requires Owned(v) && w.start == v.start && w.bmap == v.bmap
    requires forall j: nat, t: nat {:trigger R(w, j, t)} {:trigger R(v, j, t)} :: R(w, j, t) == R(v, j, t)
    ensures Owned(w)
  {
    forall x: nat | 0 < x < 8 * |w.bmap| && Bit(w.bmap, x) ensures Refers(w, w.start + x) {
      assert Refers(v, v.start + x);
      var j: nat, t: nat :| R(v, j, t) == v.start + x;
      assert R(w, j, t) == w.start + x;
    }
  }

  /** w refers to the same blocks as v and has its bitmap; sizes are still backed. */
  lemma SameSound(v: Vol, w: Vol)
    requires Sound(v) && Sized(w) && Backed(w) && w.start == v.start && w.bmap == v.bmap
    requires forall j: nat, t: nat {:trigger R(w, j, t)} {:trigger R(v, j, t)} :: R(w, j, t) == R(v, j, t)
    ensures Sound(w)
  {
    SameOwned(v, w);
    forall j: nat, t: nat | R(w, j, t) != 0 ensures InUse(w, R(w, j, t)) { assert InUse(v, R(v, j, t)); }
  }

  /** One turn of the loop of ffs_vfs_write: d goes into the block that holds position pos, and the file ends no earlier
      than d. */
  ghost predicate Writes(v: Vol, u: Vol, i: nat, pos: nat, d: seq<byte>)
  {
    var s, off := pos / 4096, pos % 4096;
    var b := R(v, i, s);
    && i in v.inodes && pos <= v.inodes[i].size && 0 < |d| && off + |d| <= 4096 && s < SLOTS && 0 != b < |v.disk|
    && var old_ := v.disk[b];
       var n := v.inodes[i];
       u == v.(disk := v.disk[b := old_[..off] + d + old_[off + |d|..]],
               inodes := v.inodes[i := n.(size := if pos + |d| > n.size then pos + |d| else n.size)])
  }

  lemma WriteSound(v: Vol, u: Vol, i: nat, pos: nat, d: seq<byte>)
    requires Sound(v) && Writes(v, u, i, pos, d)
    ensures Sound(u) && forall j: nat, t: nat {:trigger R(u, j, t)} {:trigger R(v, j, t)} :: R(u, j, t) == R(v, j, t)
  {
    var w := u.(inodes := v.inodes);
    var s := pos / 4096;
    StoreRefs(v, w, i, s, u.disk[R(v, i, s)]);
    forall j: nat, t: nat ensures R(u, j, t) == R(w, j, t) {}
    forall j: nat, t: nat ensures R(u, j, t) == R(v, j, t) { assert R(w, j, t) == R(v, j, t); }
    forall j: nat, t: nat | j in u.inodes && 4096 * t < u.inodes[j].size ensures R(u, j, t) != 0 {
      assert R(u, j, t) == R(v, j, t);
      if 4096 * t >= v.inodes[j].size { assert j == i && t == s; }
    }
    SameSound(v, u);
  }

  lemma WriteBytes(v: Vol, u: Vol, i: nat, pos: nat, d: seq<byte>, j: nat, k: nat)
    requires Sound(v) && Writes(v, u, i, pos, d) && R(v, j, k / 4096) != 0
    ensures ByteAt(u, j, k) == if j == i && pos <= k < pos + |d| then d[k - pos] else ByteAt(v, j, k)
  {
    var w := u.(inodes := v.inodes);
    var s := pos / 4096;
    StoreBytes(v, w, i, s, u.disk[R(v, i, s)], j, k);
    assert R(u, j, k / 4096) == R(w, j, k / 4096);
    if k / 4096 == s { assert pos <= k < pos + |d| <==> pos % 4096 <= k % 4096 < pos % 4096 + |d|; }
  }

  lemma SpliceIs(c: seq<byte>, pos: nat, d: seq<byte>, r: seq<byte>)
    requires pos <= |c| && |r| == (if pos + |d| > |c| then pos + |d| else |c|)
    requires forall k: nat | k < |r| :: r[k] == if pos <= k < pos + |d| then d[k - pos] else c[k]
    ensures r == Splice(c, pos, d)
  {}

  lemma WriteAt(v: Vol, u: Vol, i: nat, pos: nat, d: seq<byte>, j: nat, k: nat)
    requires Sound(v) && Writes(v, u, i, pos, d) && j in v.inodes && k < u.inodes[j].size
    ensures ByteAt(u, j, k) == if j == i && pos <= k < pos + |d| then d[k - pos] else ByteAt(v, j, k)
  {
    WriteSound(v, u, i, pos, d);
    assert R(u, j, k / 4096) != 0;
    WriteBytes(v, u, i, pos, d, j, k);
  }

  lemma WriteOther(v: Vol, u: Vol, i: nat, pos: nat, d: seq<byte>, j: nat)
    requires Sound(v) && Writes(v, u, i, pos, d) && j in v.inodes && j != i
    ensures Contents(u, j) == Contents(v, j)
  {
    forall k: nat | k < u.inodes[j].size ensures ByteAt(u, j, k) == ByteAt(v, j, k) { WriteAt(v, u, i, pos, d, j, k); }
  }

  lemma WriteThis(v: Vol, u: Vol, i: nat, pos: nat, d: seq<byte>)
    requires Sound(v) && Writes(v, u, i, pos, d)
    ensures Contents(u, i) == Splice(Contents(v, i), pos, d)
  {
    forall k: nat | k < u.inodes[i].size
      ensures Contents(u, i)[k] == if pos <= k < pos + |d| then d[k - pos] else Contents(v, i)[k]
    {
      WriteAt(v, u, i, pos, d, i, k);
    }
    SpliceIs(Contents(v, i), pos, d, Contents(u, i));
  }

  /** ... and that splices d into the contents of i and leaves the others alone. */
  lemma WriteEffect(v: Vol, u: Vol, i: nat, pos: nat, d: seq<byte>)
    requires Sound(v) && Writes(v, u, i, pos, d)
    ensures Sound(u) && Contents(u, i) == Splice(Contents(v, i), pos, d) && SameOthers(v, u, i)
  {
    WriteSound(v, u, i, pos, d);
    WriteThis(v, u, i, pos, d);
    forall j | j in v.inodes && j != i ensures Contents(u, j) == Contents(v, j) { WriteOther(v, u, i, pos, d, j); }
  }

  // ---------- giving blocks back ----------

  /** The bitmap indices of the blocks of inode i. */
  ghost predicate Uses(v: Vol, i: nat, x: nat) { exists s: nat :: R(v, i, s) == v.start + x }

  /** w is v without the blocks of i. */
  ghost predicate Releases(v: Vol, w: Vol, i: nat)
  {
    && w.start == v.start && w.disk == v.disk && |w.bmap| == |v.bmap|
    && (forall x: nat | x < 8 * |v.bmap| :: Bit(w.bmap, x) <==> Bit(v.bmap, x) && !Uses(v, i, x))
    && (forall j | j in w.inodes && j != i :: j in v.inodes && w.inodes[j] == v.inodes[j])
    && (forall j | j in v.inodes && j != i :: j in w.inodes)
    && (i in w.inodes ==> w.inodes[i] == EMPTY)
  }

  /** Truncating or unlinking a file frees exactly its blocks and changes no other file. */
  lemma Released(v: Vol, w: Vol, i: nat)
    requires Sound(v) && Releases(v, w, i)
    ensures Sound(w) && (i in w.inodes ==> Contents(w, i) == [])
    ensures forall j | j in v.inodes && j != i :: Contents(w, j) == Contents(v, j)
  {
    forall j: nat, t: nat ensures R(w, j, t) == if j == i then 0 else R(v, j, t) {}
    ReleasedMarks(v, w, i);
    ReleasedOwned(v, w, i);
    forall j, k: nat | j in v.inodes && j != i && k < v.inodes[j].size ensures ByteAt(w, j, k) == ByteAt(v, j, k) {
      assert R(w, j, k / 4096) == R(v, j, k / 4096);
    }
    assert forall j | j in v.inodes && j != i :: Contents(w, j) == Contents(v, j);
  }

  lemma ReleasedMarks(v: Vol, w: Vol, i: nat)
    requires Sound(v) && Releases(v, w, i)
    requires forall j: nat, t: nat {:trigger R(w, j, t)} {:trigger R(v, j, t)} :: R(w, j, t) == if j == i then 0 else R(v, j, t)
    ensures Marks(w)
  {
    forall j: nat, t: nat | R(w, j, t) != 0 ensures InUse(w, R(w, j, t)) {
      assert R(v, j, t) == R(w, j, t);
      forall s: nat ensures R(v, i, s) != R(v, j, t) {}
    }
  }

  lemma ReleasedOwned(v: Vol, w: Vol, i: nat)
    requires Sound(v) && Releases(v, w, i)
    requires forall j: nat, t: nat {:trigger R(w, j, t)} {:trigger R(v, j, t)} :: R(w, j, t) == if j == i then 0 else R(v, j, t)
    ensures Owned(w)
  {
    forall x: nat | 0 < x < 8 * |w.bmap| && Bit(w.bmap, x) ensures Refers(w, w.start + x) {
      assert Bit(v.bmap, x);
      var j: nat, t: nat :| R(v, j, t) == v.start + x;
      assert j != i;
      assert R(w, j, t) == w.start + x;
    }
  }
}
