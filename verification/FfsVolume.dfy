/** Files of kernel/vfs/ffs.c: block allocation, block addressing, read, write, truncate and unlink. */
module FfsVolume {
  import opened Bits
  import opened Bitmap
  import opened FfsModel
  import opened FfsRelease
  import opened FfsSpace

  // ---------- counting ----------

  /** The clear bits of m with index at least 1 and below n. */
  ghost function Clear(m: seq<byte>, n: nat): nat
    requires n <= 8 * |m|
  {
    if n <= 1 then 0 else Clear(m, n - 1) + if Bit(m, n - 1) then 0 else 1
  }

  lemma {:induction false} ClearMarked(m: seq<byte>, now: seq<byte>, x: nat, n: nat)
    requires n <= 8 * |m| && 0 < x < 8 * |m| && !Bit(m, x)
    ensures Marked(m, now, {0, x}, true) ==> Clear(m, n) == Clear(now, n) + if x < n then 1 else 0
  {
    if n > 1 { ClearMarked(m, now, x, n - 1); }
  }

  lemma {:induction false} ClearReserved(m: seq<byte>, now: seq<byte>, n: nat)
    requires n <= 8 * |m|
    ensures Marked(m, now, {0}, true) ==> Clear(m, n) == Clear(now, n)
  {
    if n > 1 { ClearReserved(m, now, n - 1); }
  }

  lemma {:induction false} ClearFreed(m: seq<byte>, now: seq<byte>, x: nat, n: nat)
    requires n <= 8 * |m| && 0 < x < 8 * |m| && Bit(m, x)
    ensures Marked(m, now, {x}, false) ==> Clear(now, n) == Clear(m, n) + if x < n then 1 else 0
  {
    if n > 1 { ClearFreed(m, now, x, n - 1); }
  }

  /** First fit finds an index below n exactly if there is one. */
  lemma {:induction false} ClearFirst(m: seq<byte>, n: nat, idx: nat)
    requires n <= 8 * |m| && idx < 8 * |m| && (idx != 0 ==> !Bit(m, idx))
    requires forall x: nat | 0 < x < (if idx == 0 then 8 * |m| else idx) :: Bit(m, x)
    ensures Clear(m, n) > 0 <==> 0 < idx < n
  {
    if n > 1 { ClearFirst(m, n - 1, idx); }
  }

  lemma AllocCount(m: seq<byte>, now: seq<byte>, idx: nat, n: nat)
    requires n <= 8 * |m| && idx < 8 * |m| && (idx != 0 ==> !Bit(m, idx)) && Marked(m, now, {0, idx}, true)
    requires forall x: nat | 0 < x < (if idx == 0 then 8 * |m| else idx) :: Bit(m, x)
    ensures Clear(m, n) > 0 <==> 0 < idx < n
    ensures Clear(m, n) == Clear(now, n) + if 0 < idx < n then 1 else 0
  {
    ClearFirst(m, n, idx);
    if idx == 0 {
      assert {0, idx} == {0};
      ClearReserved(m, now, n);
    } else {
      ClearMarked(m, now, idx, n);
    }
  }

  /** The bitmap has no clear bit after the first; kept folded. */
  ghost predicate NoClear(m: seq<byte>)
  {
    forall n: nat {:trigger Folded(n)} | Folded(n) :: forall x: nat | 0 < x < 8 * |m| :: Bit(m, x)
  }

  lemma NoClearAfter(m: seq<byte>, now: seq<byte>)
    requires forall x: nat | 0 < x < 8 * |m| :: Bit(m, x)
    ensures Marked(m, now, {0}, true) ==> NoClear(now)
  {}

  /** ffs_ctx_t: an open file with its cached inode. */
  class Context {
    const ino: nat
    var inode: Inode
    var offset: nat

    constructor (i: nat, n: Inode)
      ensures ino == i && inode == n && offset == 0
    {
      ino, inode, offset := i, n, 0;
    }
  }

  class Volume {
    const bmap: array<byte>
    const start: nat
    const total: nat
    var disk: seq<Sector>
    var inodes: map<nat, Inode>
    var freeBlocks: nat

    /** A volume with an empty bitmap and no inodes. */
    constructor (blocks: seq<Sector>, first: nat, count: nat, free: nat, map_: array<byte>)
      ensures disk == blocks && start == first && total == count && freeBlocks == free && bmap == map_ && inodes == map[]
    {
      disk, start, total, freeBlocks, bmap, inodes := blocks, first, count, free, map_, map[];
    }

    ghost predicate Laid()
      reads this
    {
      start < total <= 8 * bmap.Length
    }

    /** free_blocks is the number of blocks of the partition that are not marked. */
    ghost predicate Counted()
      requires Laid()
      reads this, bmap
    {
      freeBlocks == Clear(bmap[..], total - start)
    }

    /** By how much free_blocks is too large. */
    ghost function Surplus(): int
      requires Laid()
      reads this, bmap
    {
      freeBlocks - Clear(bmap[..], total - start)
    }

    ghost function Now(): Vol
      reads this, bmap
    {
      Vol(disk, bmap[..], start, inodes)
    }

    /** The volume as an open file sees it: with the cached inode in place of the one in the table, and of size len. */
    ghost function With(ctx: Context, len: nat): Vol
      reads this, bmap, ctx
    {
      Vol(disk, bmap[..], start, inodes[ctx.ino := ctx.inode.(size := len)])
    }

    /** ffs_alloc_data_block: 0 exactly if the bitmap is full; the block is inside the partition exactly if free_blocks > 0. */
    method AllocBlock() returns (b: nat)
      requires Laid() && |disk| == start + 8 * bmap.Length
      modifies this`disk, this`freeBlocks, bmap
      ensures old(Counted()) ==> Counted() && (old(freeBlocks) > 0 <==> 0 < b < total)
      ensures old(Counted()) ==> freeBlocks == if 0 < b < total then old(freeBlocks) - 1 else old(freeBlocks)
      ensures b == 0 ==> Marked(old(bmap[..]), bmap[..], {0}, true) && disk == old(disk)
      ensures b == 0 <==> forall x: nat | 0 < x < 8 * bmap.Length :: Bit(old(bmap[..]), x)
      ensures b == 0 ==> FullMap()
      ensures b != 0 ==> 0 < b - start < 8 * bmap.Length && !Bit(old(bmap[..]), b - start)
      ensures b != 0 ==> Marked(old(bmap[..]), bmap[..], {0, b - start}, true) && disk == old(disk)[b := ZERO]
    {
      var idx := Bitmap.Alloc(bmap);
      AllocCount(old(bmap[..]), bmap[..], idx, total - start);
      if idx == 0 {
        NoClearAfter(old(bmap[..]), bmap[..]);
        return 0;
      }
      if freeBlocks > 0 { freeBlocks := freeBlocks - 1; }
      disk := disk[start + idx := ZERO];
      b := start + idx;
    }

    /** ffs_free_data_block */
    method FreeBlock(b: nat)
      requires Laid()
      modifies this`freeBlocks, bmap
      ensures b < start || b - start >= total ==> bmap[..] == old(bmap[..]) && freeBlocks == old(freeBlocks)
      ensures start <= b < start + total ==> Marked(old(bmap[..]), bmap[..], {b - start}, false) && freeBlocks == old(freeBlocks) + 1
      ensures start < b < start + total && Bit(old(bmap[..]), b - start) ==> Surplus() == old(Surplus()) + if b < total then 0 else 1
    {
      if b < start { return; }
      var idx := b - start;
      if idx >= total { return; }
      Bitmap.Free(bmap, idx);
      if 0 < idx && Bit(old(bmap[..]), idx) { ClearFreed(old(bmap[..]), bmap[..], idx, total - start); }
      freeBlocks := freeBlocks + 1;
    }

    /** What block addressing promises when it may allocate: only the cached inode, the pointers and the bitmap change,
        and no file does. */
    twostate predicate Addressed(ctx: Context, len: nat)
      reads this, bmap, ctx
    {
      && Keeps(old(With(ctx, len)), With(ctx, len)) && ctx.inode.size == old(ctx.inode.size)
      && (Laid() && old(Counted()) ==> Counted() && Charged(ctx, len, len))
    }

    /** The blocks taken are paid for out of free_blocks. */
    twostate predicate Charged(ctx: Context, len: nat, now: nat)
      reads this, bmap, ctx
    {
      Pays(old(With(ctx, len)), With(ctx, now), ctx.ino, total, old(freeBlocks), freeBlocks)
    }

    /** The bitmap has no clear bit. */
    ghost predicate FullMap()
      reads this, bmap
    {
      NoClear(bmap[..])
    }

    /** Slot idx of the cached inode, below 12, with a block allocated if it has none. */
    method DirectBlock(ctx: Context, idx: nat, ghost len: nat) returns (b: nat)
      requires Laid() && ctx.ino in inodes && Whole(With(ctx, len)) && idx < DIRECT
      modifies this`disk, this`freeBlocks, bmap, ctx`inode
      ensures Addressed(ctx, len) && b == R(With(ctx, len), ctx.ino, idx) && (b == 0 ==> FullMap())
      ensures if b != 0 then Takes(old(With(ctx, len)), With(ctx, len), ctx.ino, {idx}, true) else Takes(old(With(ctx, len)), With(ctx, len), ctx.ino, {idx}, false)
    {
      ghost var v := With(ctx, len);
      Sizes(v, ctx.ino);
      if ctx.inode.blocks[idx] == 0 {
        var nb := AllocBlock();
        if nb == 0 {
          NoneTaken(v, With(ctx, len), ctx.ino, {idx}, total, freeBlocks);
          return 0;
        }
        ctx.inode := ctx.inode.(blocks := ctx.inode.blocks[idx := nb]);
        DirectAttached(v, ctx.ino, idx, nb - start, bmap[..], With(ctx, len), total, old(freeBlocks));
      } else {
        HeldAlready(v, ctx.ino, idx, total, freeBlocks);
      }
      b := ctx.inode.blocks[idx];
    }

    /** The indirect block of the cached inode, allocated if it has none. */
    method IndirectBlock(ctx: Context, ghost len: nat) returns (q: nat)
      requires Laid() && ctx.ino in inodes && Whole(With(ctx, len))
      modifies this`disk, this`freeBlocks, bmap, ctx`inode
      ensures Addressed(ctx, len) && q == ctx.inode.indirect && (q == 0 ==> FullMap()) && (old(ctx.inode.indirect) != 0 ==> q == old(ctx.inode.indirect))
      ensures if q != 0 then Takes(old(With(ctx, len)), With(ctx, len), ctx.ino, {SLOTS}, true) else Takes(old(With(ctx, len)), With(ctx, len), ctx.ino, {SLOTS}, false)
    {
      ghost var v := With(ctx, len);
      Sizes(v, ctx.ino);
      if ctx.inode.indirect == 0 {
        var ib := AllocBlock();
        if ib == 0 {
          NoneTaken(v, With(ctx, len), ctx.ino, {SLOTS}, total, freeBlocks);
          return 0;
        }
        ctx.inode := ctx.inode.(indirect := ib);
        IndirectAttached(v, ctx.ino, ib - start, bmap[..], With(ctx, len), total, old(freeBlocks));
      } else {
        HeldAlready(v, ctx.ino, SLOTS, total, freeBlocks);
      }
      q := ctx.inode.indirect;
    }

    /** Pointer k of the indirect block, with a block allocated if it is zero. */
    method PointerBlock(ctx: Context, k: nat, ghost len: nat) returns (b: nat)
      requires Laid() && ctx.ino in inodes && Whole(With(ctx, len)) && k < 1024 && ctx.inode.indirect != 0
      modifies this`disk, this`freeBlocks, bmap
      ensures Addressed(ctx, len) && b == R(With(ctx, len), ctx.ino, DIRECT + k) && (b == 0 ==> FullMap())
      ensures if b != 0 then Takes(old(With(ctx, len)), With(ctx, len), ctx.ino, {DIRECT + k}, true) else Takes(old(With(ctx, len)), With(ctx, len), ctx.ino, {DIRECT + k}, false)
    {
      ghost var v := With(ctx, len);
      var q := ctx.inode.indirect;
      Sizes(v, ctx.ino);
      PointerIs(v, ctx.ino, k);
      var ptrs := disk[q];
      if Word(ptrs, k) == 0 {
        var nb := AllocBlock();
        if nb == 0 {
          NoneTaken(v, With(ctx, len), ctx.ino, {DIRECT + k}, total, freeBlocks);
          return 0;
        }
        WordPut(ptrs, k, nb, k);
        ptrs := PutWord(ptrs, k, nb);
        disk := disk[q := ptrs];
        PointerAttached(v, ctx.ino, k, nb - start, bmap[..], With(ctx, len), total, old(freeBlocks));
      } else {
        HeldAlready(v, ctx.ino, DIRECT + k, total, freeBlocks);
      }
      b := Word(ptrs, k);
    }

    /** ffs_file_block without allocation: the block of logical index idx, 0 if there is none. */
    method Lookup(ctx: Context, idx: nat, ghost len: nat) returns (b: nat)
      requires Sound(With(ctx, len))
      ensures b == if idx < SLOTS then R(With(ctx, len), ctx.ino, idx) else 0
    {
      ghost var v := With(ctx, len);
      assert v.inodes[ctx.ino] == ctx.inode.(size := len);
      if idx < 12 { return ctx.inode.blocks[idx]; }
      var k := idx - 12;
      if k >= 1024 || ctx.inode.indirect == 0 { return 0; }
      IndirectRange(v, ctx.ino, k);
      b := Word(disk[ctx.inode.indirect], k);
    }

    /** Whether all blocks of the open file lie in the partition. */
    method Audit(ctx: Context) returns (ok: bool)
      requires ctx.ino in inodes && inodes[ctx.ino] == ctx.inode && Sound(Now())
      ensures ok <==> Inside(Now(), ctx.ino, total)
    {
      assert inodes[ctx.ino := ctx.inode.(size := ctx.inode.size)] == inodes;
      assert R(Now(), ctx.ino, SLOTS) == ctx.inode.indirect;
      if ctx.inode.indirect >= total { return false; }
      var s: nat := 0;
      while s < SLOTS
        invariant s <= SLOTS && forall t: nat {:trigger R(Now(), ctx.ino, t)} | t < s :: R(Now(), ctx.ino, t) < total
      {
        var b := Lookup(ctx, s, ctx.inode.size);
        if b >= total { return false; }
        s := s + 1;
      }
      forall t: nat ensures R(Now(), ctx.ino, t) < total {
        if t > SLOTS { assert R(Now(), ctx.ino, t) == 0; }
      }
      ok := true;
    }

    /** ffs_file_block with allocation: 0 only if idx is beyond the indirect range or the bitmap is full. */
    method FileBlock(ctx: Context, idx: nat, ghost len: nat) returns (b: nat)
      requires Laid() && ctx.ino in inodes && Whole(With(ctx, len))
      modifies this`disk, this`freeBlocks, bmap, ctx`inode
      ensures Addressed(ctx, len) && b == if idx < SLOTS then R(With(ctx, len), ctx.ino, idx) else 0
      ensures b == 0 ==> idx >= SLOTS || FullMap()
      ensures if b != 0 then Takes(old(With(ctx, len)), With(ctx, len), ctx.ino, Path(idx), true) else Takes(old(With(ctx, len)), With(ctx, len), ctx.ino, Path(idx), false)
    {
      if idx < 12 {
        b := DirectBlock(ctx, idx, len);
        return;
      }
      var k := idx - 12;
      if k >= 1024 {
        Untouched(With(ctx, len), ctx.ino, total, freeBlocks);
        return 0;
      }
      b := ThroughIndirect(ctx, k, len);
    }

    /** The second half of ffs_file_block: block k behind the indirect block. */
    method ThroughIndirect(ctx: Context, k: nat, ghost len: nat) returns (b: nat)
      requires Laid() && ctx.ino in inodes && Whole(With(ctx, len)) && k < 1024
      modifies this`disk, this`freeBlocks, bmap, ctx`inode
      ensures Addressed(ctx, len) && b == R(With(ctx, len), ctx.ino, DIRECT + k) && (b == 0 ==> FullMap())
      ensures if b != 0 then Takes(old(With(ctx, len)), With(ctx, len), ctx.ino, Path(DIRECT + k), true) else Takes(old(With(ctx, len)), With(ctx, len), ctx.ino, Path(DIRECT + k), false)
    {
      ghost var v, free := With(ctx, len), freeBlocks;
      var q := IndirectBlock(ctx, len);
      ghost var w, some := With(ctx, len), freeBlocks;
      KeepsWhole(v, w);
      if q == 0 {
        TakesFewer(v, w, ctx.ino, {SLOTS}, Path(DIRECT + k), false);
        return 0;
      }
      b := PointerBlock(ctx, k, len);
      ghost var got := b != 0;
      KeepsTwice(v, w, With(ctx, len));
      TakesTwice(v, w, With(ctx, len), ctx.ino, {SLOTS}, {DIRECT + k}, Path(DIRECT + k), got);
      PaysTwice(v, w, With(ctx, len), ctx.ino, total, free, some, freeBlocks);
    }

    /** The part of a turn of ffs_vfs_write after ffs_file_block: data goes into block b. */
    method Store(ctx: Context, b: nat, pos: nat, buf: seq<byte>, done: nat, ghost len: nat)
      returns (chunk: nat, ghost d: seq<byte>, ghost now: nat)
      requires ctx.ino in inodes && Whole(With(ctx, len)) && pos <= len && done < |buf| && pos / 4096 < SLOTS
      requires b == R(With(ctx, len), ctx.ino, pos / 4096) && b != 0
      modifies this`disk
      ensures 0 < chunk && done + chunk <= |buf| && d == buf[done..done + chunk] && now == Longer(len, pos + chunk)
      ensures Written(old(With(ctx, len)), With(ctx, now), ctx.ino, pos, d)
      ensures Takes(old(With(ctx, len)), With(ctx, now), ctx.ino, {}, true) && OneBlock(pos, chunk)
      ensures Pays(old(With(ctx, len)), With(ctx, now), ctx.ino, total, freeBlocks, freeBlocks)
    {
      ghost var v := With(ctx, len);
      assert b < |disk| by {
        assert WholeKey(0);
        InRange(v, ctx.ino, pos / 4096);
      }
      var off := pos % 4096;
      var wbuf := ZERO;
      if off > 0 || |buf| - done < 4096 - off { wbuf := disk[b]; }
      chunk := 4096 - off;
      if chunk > |buf| - done { chunk := |buf| - done; }
      now := if pos + chunk > len then pos + chunk else len;
      d := buf[done..done + chunk];
      wbuf := Overlay(wbuf, off, buf[done..done + chunk]);
      assert wbuf == Overlay(v.disk[b], off, d);
      disk := disk[b := wbuf];
      StoreDone(v, With(ctx, now), ctx.ino, pos, d, total, freeBlocks);
    }

    /** Store, seen from the volume u before ffs_file_block, when there were free blocks. */
    method StoreNext(ctx: Context, b: nat, pos: nat, buf: seq<byte>, done: nat, ghost len: nat, ghost u: Vol, ghost free: nat)
      returns (chunk: nat, ghost d: seq<byte>, ghost now: nat)
      requires ctx.ino in inodes && Whole(With(ctx, len)) && pos <= len && done < |buf| && pos / 4096 < SLOTS && total > 0
      requires b == R(With(ctx, len), ctx.ino, pos / 4096) && b != 0
      requires Keeps(u, With(ctx, len)) && ctx.ino in u.inodes && Takes(u, With(ctx, len), ctx.ino, Path(pos / 4096), true)
      modifies this`disk
      ensures 0 < chunk && done + chunk <= |buf| && d == buf[done..done + chunk] && now == Longer(len, pos + chunk)
      ensures Written(u, With(ctx, now), ctx.ino, pos, d) && Takes(u, With(ctx, now), ctx.ino, Path(pos / 4096), true) && OneBlock(pos, chunk)
      ensures Pays(u, old(With(ctx, len)), ctx.ino, total, free, freeBlocks) ==> Pays(u, With(ctx, now), ctx.ino, total, free, freeBlocks)
    {
      ghost var v, slots := With(ctx, len), Path(pos / 4096);
      chunk, d, now := Store(ctx, b, pos, buf, done, len);
      KeptThen(u, v, With(ctx, now), ctx.ino, pos, d);
      TakesTwice(u, v, With(ctx, now), ctx.ino, slots, {}, slots, true);
      PaysTwice(u, v, With(ctx, now), ctx.ino, total, free, freeBlocks, freeBlocks);
    }

    /** One turn of the loop of ffs_vfs_write; chunk is 0 if no block could be had. */
    method WriteChunk(ctx: Context, pos: nat, buf: seq<byte>, done: nat, ghost len: nat)
      returns (chunk: nat, ghost d: seq<byte>, ghost now: nat)
      requires Laid() && ctx.ino in inodes && Whole(With(ctx, len)) && pos <= len && done < |buf|
      modifies this`disk, this`freeBlocks, bmap, ctx`inode
      ensures done + chunk <= |buf| && d == buf[done..done + chunk] && now == Longer(len, pos + chunk)
      ensures Written(old(With(ctx, len)), With(ctx, now), ctx.ino, pos, d)
      ensures chunk == 0 ==> pos / 4096 >= SLOTS || FullMap()
      ensures ctx.inode.size == old(ctx.inode.size) && (old(Counted()) ==> Counted() && Charged(ctx, len, now))
      ensures if chunk != 0 then Takes(old(With(ctx, len)), With(ctx, now), ctx.ino, Path(pos / 4096), true) else Takes(old(With(ctx, len)), With(ctx, now), ctx.ino, Path(pos / 4096), false)
      ensures chunk != 0 ==> OneBlock(pos, chunk)
    {
      ghost var u, free := With(ctx, len), freeBlocks;
      var b := FileBlock(ctx, pos / 4096, len);
      ghost var v := With(ctx, len);
      KeepsWhole(u, v);
      if b == 0 {
        chunk, now := 0, len;
        d := buf[done..done + chunk];
        KeptNothing(u, v, ctx.ino, pos, d);
      } else {
        chunk, d, now := StoreNext(ctx, b, pos, buf, done, len, u, free);
      }
    }

    /** One turn, seen from the start of the write: m bytes are written, more than n unless no block can be had. */
    method WriteTurn(ctx: Context, buf: seq<byte>, n: nat, ghost v: Vol, ghost len: nat, ghost was: seq<byte>)
      returns (m: nat, ghost now: nat, ghost all: seq<byte>)
      requires Laid() && ctx.ino in inodes && n < |buf| && was == buf[..n] && Progress(v, With(ctx, len), ctx.ino, ctx.offset, was)
      requires len == Longer(ctx.inode.size, ctx.offset + n)
      modifies this`disk, this`freeBlocks, bmap, ctx`inode
      ensures n <= m <= |buf| && all == buf[..m] && now == Longer(ctx.inode.size, ctx.offset + m)
      ensures m > n ==> Progress(v, With(ctx, now), ctx.ino, ctx.offset, all)
      ensures m == n ==> Halted(v, With(ctx, now), ctx.ino, ctx.offset, all, |buf|)
      ensures m == n ==> (ctx.offset + n) / 4096 >= SLOTS || FullMap()
      ensures ctx.inode.size == old(ctx.inode.size) && (old(Counted()) ==> Counted() && Charged(ctx, len, now))
    {
      ghost var w := With(ctx, len);
      ProgressSize(v, w, ctx.ino, ctx.offset, was);
      var chunk;
      ghost var d;
      chunk, d, now := WriteChunk(ctx, ctx.offset + n, buf, n, len);
      m, all := n + chunk, buf[..n + chunk];
      Prefix(buf, n, m);
      if chunk != 0 {
        Advance(v, w, With(ctx, now), ctx.ino, ctx.offset, was, ctx.offset + n, d, all);
      } else {
        Halt(v, w, With(ctx, now), ctx.ino, ctx.offset, was, ctx.offset + n, d, all, |buf|);
      }
    }

    /** The loop of ffs_vfs_write: n bytes are written, all of them unless no block can be had. */
    method WriteAll(ctx: Context, buf: seq<byte>, ghost v: Vol) returns (n: nat, ghost len: nat)
      requires Laid() && ctx.ino in inodes && v == With(ctx, ctx.inode.size) && Sound(v) && ctx.offset <= ctx.inode.size
      modifies this`disk, this`freeBlocks, bmap, ctx`inode
      ensures n <= |buf| && len == Longer(ctx.inode.size, ctx.offset + n)
      ensures if n == |buf| then Progress(v, With(ctx, len), ctx.ino, ctx.offset, buf[..n]) else Halted(v, With(ctx, len), ctx.ino, ctx.offset, buf[..n], |buf|)
      ensures old(Counted()) ==> Counted() && Pays(v, With(ctx, len), ctx.ino, total, old(freeBlocks), freeBlocks)
      ensures n < |buf| ==> (ctx.offset + n) / 4096 >= SLOTS || FullMap()
      ensures ctx.inode.size == old(ctx.inode.size)
    {
      n, len := 0, ctx.inode.size;
      ghost var all := buf[..n];
      NothingYet(v, ctx.ino, ctx.offset, all, total, freeBlocks);
      while n < |buf|
        invariant n <= |buf| && ctx.inode.size == old(ctx.inode.size) && len == Longer(ctx.inode.size, ctx.offset + n)
        invariant all == buf[..n] && Progress(v, With(ctx, len), ctx.ino, ctx.offset, all)
        invariant old(Counted()) ==> Counted() && Pays(v, With(ctx, len), ctx.ino, total, old(freeBlocks), freeBlocks)
      {
        ghost var w, some := With(ctx, len), freeBlocks;
        var m;
        m, len, all := WriteTurn(ctx, buf, n, v, len, all);
        PaysTwice(v, w, With(ctx, len), ctx.ino, total, old(freeBlocks), some, freeBlocks);
        if m == n { return; }
        n := m;
      }
    }

    /** The end of ffs_vfs_write: offset and size move on, and the inode goes back to the table. */
    method Commit(ctx: Context, n: nat, ghost len: nat)
      requires len == Longer(ctx.inode.size, ctx.offset + n)
      modifies this`inodes, ctx
      ensures Now() == old(With(ctx, len)) && ctx.ino in inodes && inodes[ctx.ino] == ctx.inode && ctx.offset == old(ctx.offset) + n
    {
      ctx.offset := ctx.offset + n;
      if ctx.offset > ctx.inode.size { ctx.inode := ctx.inode.(size := ctx.offset); }
      inodes := inodes[ctx.ino := ctx.inode];
    }

    /** ffs_vfs_write: done bytes of buf are spliced into the file at its offset, all of them unless space runs out. */
    method Write(ctx: Context, buf: seq<byte>) returns (status: Status, ghost done: nat)
      requires Laid() && ctx.ino in inodes && inodes[ctx.ino] == ctx.inode && Sound(Now()) && ctx.offset <= ctx.inode.size
      modifies this`disk, this`freeBlocks, this`inodes, bmap, ctx
      ensures Sound(Now()) && ctx.ino in inodes && inodes[ctx.ino] == ctx.inode && (old(Counted()) ==> Counted())
      ensures status == Ok ==> Keys(Now(), ctx.ino) == old(Keys(Now(), ctx.ino)) + Touched(old(ctx.offset), |buf|)
      ensures |buf| > 0 && old(Counted()) && AllInside(old(Now()), total) ==> (status == Ok && AllInside(Now(), total) <==>
                && old(ctx.offset) + |buf| <= 4096 * SLOTS
                && |Touched(old(ctx.offset), |buf|) - old(Keys(Now(), ctx.ino))| <= old(freeBlocks))
      ensures old(Counted()) ==> Pays(old(Now()), Now(), ctx.ino, total, old(freeBlocks), freeBlocks)
      ensures done <= |buf| && (status == Ok <==> done == |buf| > 0) && (status == Invalid <==> |buf| == 0)
      ensures Contents(Now(), ctx.ino) == Splice(old(Contents(Now(), ctx.ino)), old(ctx.offset), buf[..done])
      ensures SameOthers(old(Now()), Now(), ctx.ino) && ctx.offset == old(ctx.offset) + done
      ensures status == NoSpace ==> ctx.offset / 4096 >= SLOTS || FullMap()
    {
      ghost var v := Now();
      NothingYet(v, ctx.ino, ctx.offset, [], total, freeBlocks);
      if |buf| == 0 {
        WrittenOut(v, v, ctx.ino, ctx.offset, [], 0);
        return Invalid, 0;
      }
      assert inodes[ctx.ino := ctx.inode.(size := ctx.inode.size)] == inodes;
      var n;
      ghost var len;
      n, len := WriteAll(ctx, buf, v);
      WrittenOut(v, With(ctx, len), ctx.ino, ctx.offset, buf[..n], |buf|);
      Commit(ctx, n, len);
      status, done := if n == |buf| then Ok else NoSpace, n;
      WriteFits(v, Now(), ctx.ino, old(ctx.offset), |buf|, n, total, old(freeBlocks), freeBlocks);
    }

    /** One turn of the loop of ffs_vfs_read: what the block of pos holds up to end. */
    method ReadChunk(ctx: Context, pos: nat, end: nat, ghost v: Vol) returns (piece: seq<byte>)
      requires v == With(ctx, ctx.inode.size) && Sound(v) && pos < end <= ctx.inode.size
      ensures 0 < |piece| <= end - pos && piece == Contents(v, ctx.ino)[pos..pos + |piece|]
    {
      var b := Lookup(ctx, pos / 4096, ctx.inode.size);
      assert R(v, ctx.ino, pos / 4096) != 0;
      var off := pos % 4096;
      var chunk := 4096 - off;
      if chunk > end - pos { chunk := end - pos; }
      ReadStep(v, ctx.ino, b, pos, chunk);
      piece := disk[b][off..off + chunk];
    }

    /** ffs_vfs_read: the next n bytes of the file, or what is left of it. */
    method Read(ctx: Context, n: nat) returns (data: seq<byte>)
      requires ctx.ino in inodes && inodes[ctx.ino] == ctx.inode && Sound(Now())
      modifies ctx`offset
      ensures var c, o := Contents(Now(), ctx.ino), old(ctx.offset);
              data == if o >= |c| then [] else if o + n <= |c| then c[o..o + n] else c[o..]
      ensures ctx.offset == old(ctx.offset) + |data|
    {
      data := [];
      var offset := ctx.offset;
      if offset >= ctx.inode.size { return; }
      var avail := ctx.inode.size - offset;
      var end := offset + if n > avail then avail else n;
      ghost var v := Now();
      ghost var c := Contents(v, ctx.ino);
      assert inodes[ctx.ino := ctx.inode.(size := ctx.inode.size)] == inodes;
      var pos := offset;
      while pos < end
        invariant offset <= pos <= end && data == c[offset..pos] && ctx.offset == offset
      {
        var piece := ReadChunk(ctx, pos, end, v);
        Slices(c, offset, pos, pos + |piece|);
        data := data + piece;
        pos := pos + |piece|;
      }
      ctx.offset := pos;
    }

    /** The blocks of the slots below n of inode i have been given back, and the counter is off by those not in the partition
        beyond what it was; kept folded. */
    ghost predicate Dropped(v: Vol, i: nat, n: nat, was: int)
      requires Laid()
      reads this, bmap
    {
      forall k: nat {:trigger Folded(k)} | Folded(k) ::
        v.start == start > 0 && Drops(v, bmap[..], i, n, total) && Surplus() == was + Over(v, i, n, total)
    }

    /** Frees the block of slot s, if there is one. */
    method Drop(b: nat, ghost v: Vol, ghost i: nat, ghost s: nat, ghost was: int)
      requires Laid() && Whole(v) && Dropped(v, i, s, was) && b == R(v, i, s)
      modifies this`freeBlocks, bmap
      ensures Dropped(v, i, s + 1, was)
    {
      ghost var m := bmap[..];
      assert WholeKey(0) && Folded(0);
      DropStep(v, m, i, s, total);
      if b != 0 { FreeBlock(b); }
      DropMarked(v, m, bmap[..], i, s, total);
    }

    /** The loops of ffs_vfs_open with VFS_O_TRUNC and of ffs_vfs_unlink that free all blocks of an inode. */
    method DropAll(n: Inode, ghost v: Vol, ghost i: nat)
      requires Laid() && v == Now() && Whole(v) && i in inodes && inodes[i] == n
      modifies this`freeBlocks, bmap
      ensures Drops(v, bmap[..], i, SLOTS + 1, total) && Surplus() == old(Surplus()) + Over(v, i, SLOTS + 1, total)
    {
      ghost var was := Surplus();
      Sizes(v, i);
      var s: nat := 0;
      assert Dropped(v, i, s, was);
      while s < 12
        invariant s <= 12 && Dropped(v, i, s, was)
      {
        Drop(n.blocks[s], v, i, s, was);
        s := s + 1;
      }
      if n.indirect == 0 {
        assert WholeKey(0) && Folded(0);
        NoPointers(v, bmap[..], i, total);
        OverEmpty(v, i, SLOTS + 1, total);
        return;
      }
      DropPointers(n.indirect, v, i, was);
      assert Folded(0);
    }

    /** The pointers of the indirect block, and then the block itself. */
    method DropPointers(q: nat, ghost v: Vol, ghost i: nat, ghost was: int)
      requires Laid() && v.disk == disk && Whole(v) && i in v.inodes && q == v.inodes[i].indirect != 0 && Dropped(v, i, 12, was)
      modifies this`freeBlocks, bmap
      ensures Dropped(v, i, SLOTS + 1, was)
    {
      PointerIs(v, i, 0);
      var ptrs := disk[q];
      var k: nat := 0;
      while k < 1024
        invariant k <= 1024 && Dropped(v, i, 12 + k, was)
      {
        PointerIs(v, i, k);
        Drop(Word(ptrs, k), v, i, 12 + k, was);
        k := k + 1;
      }
      Drop(q, v, i, SLOTS, was);
    }

    /** Opening with VFS_O_TRUNC: the file is empty and no other changes. Its blocks and no others are free again, and are
        counted, exactly if they lie in the partition. */
    method Truncate(ctx: Context)
      requires Laid() && ctx.ino in inodes && inodes[ctx.ino] == ctx.inode && Sound(Now())
      modifies this`freeBlocks, this`inodes, bmap, ctx`inode
      ensures Trims(old(Now()), Now(), ctx.ino, total) && ctx.ino in inodes && inodes[ctx.ino] == ctx.inode == EMPTY
      ensures Contents(Now(), ctx.ino) == [] && SameOthers(old(Now()), Now(), ctx.ino)
      ensures Sound(Now()) <==> Inside(old(Now()), ctx.ino, start + total)
      ensures old(Counted()) ==> (Sound(Now()) && Counted() <==> Inside(old(Now()), ctx.ino, total))
      ensures AllInside(old(Now()), total) ==> AllInside(Now(), total)
    {
      ghost var v := Now();
      DropAll(ctx.inode, v, ctx.ino);
      ctx.inode := EMPTY;
      inodes := inodes[ctx.ino := ctx.inode];
      Trimmed(v, Now(), ctx.ino, total);
    }

    /** The end of ffs_vfs_unlink, after the directory entry is gone: the inode is gone and no other file changes. Its blocks
        and no others are free again, and are counted, exactly if they lie in the partition. */
    method Unlink(ino: nat)
      requires Laid() && ino in inodes && Sound(Now())
      modifies this`freeBlocks, this`inodes, bmap
      ensures Trims(old(Now()), Now(), ino, total) && inodes == old(inodes) - {ino}
      ensures forall j | j in old(inodes) && j != ino :: j in inodes && Contents(Now(), j) == old(Contents(Now(), j))
      ensures Sound(Now()) <==> Inside(old(Now()), ino, start + total)
      ensures old(Counted()) ==> (Sound(Now()) && Counted() <==> Inside(old(Now()), ino, total))
      ensures AllInside(old(Now()), total) ==> AllInside(Now(), total)
    {
      ghost var v := Now();
      DropAll(inodes[ino], v, ino);
      inodes := inodes - {ino};
      Trimmed(v, Now(), ino, total);
    }
  }

  lemma Prefix(c: seq<byte>, a: nat, b: nat)
    requires a <= b <= |c|
    ensures c[..a] + c[a..b] == c[..b]
  {}

  lemma Slices(c: seq<byte>, a: nat, b: nat, d: nat)
    requires a <= b <= d <= |c|
    ensures c[a..b] + c[b..d] == c[a..d]
  {}

  lemma ReadStep(v: Vol, i: nat, b: nat, pos: nat, chunk: nat)
    requires Sound(v) && i in v.inodes && pos + chunk <= v.inodes[i].size && b == R(v, i, pos / 4096) && b != 0
    requires pos % 4096 + chunk <= 4096
    ensures b < |v.disk| && v.disk[b][pos % 4096..pos % 4096 + chunk] == Contents(v, i)[pos..pos + chunk]
  {
    InRange(v, i, pos / 4096);
    forall k: nat | pos <= k < pos + chunk ensures Contents(v, i)[k] == v.disk[b][k - pos + pos % 4096] {
      assert k / 4096 == pos / 4096 && k % 4096 == k - pos + pos % 4096;
    }
  }

  lemma Trimmed(v: Vol, w: Vol, i: nat, total: nat)
    requires Sound(v) && Drops(v, w.bmap, i, SLOTS + 1, total) && w.start == v.start && w.disk == v.disk && i in v.inodes && total > 0
    requires w.inodes == v.inodes - {i} || w.inodes == v.inodes[i := EMPTY]
    ensures Trims(v, w, i, total) && (i in w.inodes ==> Contents(w, i) == [] && SameOthers(v, w, i))
    ensures forall j | j in v.inodes && j != i :: j in w.inodes && Contents(w, j) == Contents(v, j)
    ensures Sound(w) <==> Inside(v, i, v.start + total)
    ensures Sound(w) && Over(v, i, SLOTS + 1, total) == 0 <==> Inside(v, i, total)
    ensures AllInside(v, total) ==> AllInside(w, total)
  {
    AllDropped(v, w, i, total);
    TrimmedContents(v, w, i, total);
    TrimmedSound(v, w, i, total);
    TrimmedInside(v, w, i, total);
    ExactIff(v, i, total);
  }

  ghost function Longer(a: nat, b: nat): nat { if b > a then b else a }

  datatype Status = Ok | Invalid | NoSpace

  ghost predicate Wrote(v: Vol, w: Vol, i: nat, pos: nat, d: seq<byte>)
  {
    && i in v.inodes && pos <= v.inodes[i].size && Sound(w) && SameOthers(v, w, i)
    && Contents(w, i) == Splice(Contents(v, i), pos, d)
  }

  /** w is v with d written to file i at pos; kept folded. */
  ghost predicate Written(v: Vol, w: Vol, i: nat, pos: nat, d: seq<byte>)
  {
    forall n: nat {:trigger Folded(n)} | Folded(n) :: Wrote(v, w, i, pos, d)
  }

  lemma Unfold(v: Vol, w: Vol, i: nat, pos: nat, d: seq<byte>)
    ensures Written(v, w, i, pos, d) <==> Wrote(v, w, i, pos, d)
  {
    assert Folded(0);
  }

  ghost predicate ProgressKey(n: nat) { true }

  /** All of d is written, with blocks for it. */
  ghost predicate Progress(v: Vol, w: Vol, i: nat, pos: nat, d: seq<byte>)
  {
    forall n: nat {:trigger ProgressKey(n)} | ProgressKey(n) :: Written(v, w, i, pos, d) && Takes(v, w, i, Touched(pos, |d|), true)
  }

  /** d is written, and some of the blocks for size bytes have been taken. */
  ghost predicate Halted(v: Vol, w: Vol, i: nat, pos: nat, d: seq<byte>, size: nat)
  {
    forall n: nat {:trigger ProgressKey(n)} | ProgressKey(n) :: Written(v, w, i, pos, d) && Takes(v, w, i, Touched(pos, size), false)
  }

  lemma WrittenOut(v: Vol, w: Vol, i: nat, pos: nat, d: seq<byte>, size: nat)
    ensures Progress(v, w, i, pos, d) ==> Wrote(v, w, i, pos, d) && Takes(v, w, i, Touched(pos, |d|), true)
    ensures Halted(v, w, i, pos, d, size) ==> Wrote(v, w, i, pos, d) && Takes(v, w, i, Touched(pos, size), false)
  {
    assert ProgressKey(0);
    Unfold(v, w, i, pos, d);
  }

  lemma NothingYet(v: Vol, i: nat, pos: nat, none: seq<byte>, total: nat, free: nat)
    requires i in v.inodes && pos <= v.inodes[i].size && Sound(v) && |none| == 0
    ensures Progress(v, v, i, pos, none) && Pays(v, v, i, total, free, free)
  {
    assert Splice(Contents(v, i), pos, none) == Contents(v, i);
    Unfold(v, v, i, pos, none);
    SameTakes(v, v, i, {}, true, total, free);
  }

  lemma ProgressSize(v: Vol, w: Vol, i: nat, pos: nat, d: seq<byte>)
    ensures Progress(v, w, i, pos, d) ==> Whole(w) && i in w.inodes && pos + |d| <= w.inodes[i].size
  {
    assert ProgressKey(0);
    Unfold(v, w, i, pos, d);
  }

  lemma Advance(u: Vol, v: Vol, w: Vol, i: nat, pos: nat, d: seq<byte>, next: nat, e: seq<byte>, all: seq<byte>)
    requires next == pos + |d| && all == d + e && 0 < |e| && OneBlock(next, |e|)
    ensures Progress(u, v, i, pos, d) && Written(v, w, i, next, e) && Takes(v, w, i, Path(next / 4096), true) ==> Progress(u, w, i, pos, all)
  {
    assert ProgressKey(0);
    WriteMore(u, v, w, i, pos, d, next, e, all);
    TakesNext(u, v, w, i, pos, |d|, |e|);
  }

  lemma Halt(u: Vol, v: Vol, w: Vol, i: nat, pos: nat, d: seq<byte>, next: nat, e: seq<byte>, all: seq<byte>, size: nat)
    requires next == pos + |d| && all == d + e && |e| == 0 && |d| < size
    ensures Progress(u, v, i, pos, d) && Written(v, w, i, next, e) && Takes(v, w, i, Path(next / 4096), false) ==> Halted(u, w, i, pos, all, size)
  {
    assert ProgressKey(0);
    WriteMore(u, v, w, i, pos, d, next, e, all);
    TakesNoMore(u, v, w, i, pos, |d|, size);
  }

  lemma WriteMore(u: Vol, v: Vol, w: Vol, i: nat, pos: nat, d: seq<byte>, next: nat, e: seq<byte>, all: seq<byte>)
    requires next == pos + |d| && all == d + e
    ensures Written(u, v, i, pos, d) && Written(v, w, i, next, e) ==> Written(u, w, i, pos, all)
  {
    Unfold(u, v, i, pos, d);
    Unfold(v, w, i, next, e);
    Unfold(u, w, i, pos, all);
    if Wrote(u, v, i, pos, d) && Wrote(v, w, i, next, e) { SpliceTwice(Contents(u, i), pos, d, e); }
  }

  /** memcpy of d into a block at off. */
  function Overlay(b: Sector, off: nat, d: seq<byte>): Sector
    requires off + |d| <= 4096
  {
    b[..off] + d + b[off + |d|..]
  }

  lemma StoreEffect(v: Vol, u: Vol, i: nat, pos: nat, d: seq<byte>)
    requires Sound(v) && i in v.inodes && pos <= v.inodes[i].size && 0 < |d| && pos % 4096 + |d| <= 4096 && pos / 4096 < SLOTS
    requires var b, n := R(v, i, pos / 4096), v.inodes[i];
             0 != b < |v.disk| && u == v.(disk := v.disk[b := Overlay(v.disk[b], pos % 4096, d)],
                                         inodes := v.inodes[i := n.(size := if pos + |d| > n.size then pos + |d| else n.size)])
    ensures Sound(u) && Contents(u, i) == Splice(Contents(v, i), pos, d) && SameOthers(v, u, i)
  {
    WriteEffect(v, u, i, pos, d);
  }

  lemma InRange(v: Vol, i: nat, s: nat)
    requires Sound(v) && R(v, i, s) != 0
    ensures R(v, i, s) < |v.disk|
  {}

  lemma KeptNothing(u: Vol, v: Vol, i: nat, pos: nat, d: seq<byte>)
    requires |d| == 0
    ensures Keeps(u, v) && i in u.inodes && pos <= u.inodes[i].size ==> Written(u, v, i, pos, d)
  {
    Unfold(u, v, i, pos, d);
    KeepsIs(u, v);
    if Kept(u, v) && i in u.inodes { assert Contents(v, i) == Contents(u, i); }
  }

  lemma KeptThen(u: Vol, v: Vol, w: Vol, i: nat, pos: nat, d: seq<byte>)
    ensures Keeps(u, v) && i in u.inodes && Written(v, w, i, pos, d) ==> Written(u, w, i, pos, d)
  {
    KeepsIs(u, v);
    Unfold(v, w, i, pos, d);
    Unfold(u, w, i, pos, d);
    if Kept(u, v) && i in u.inodes { assert Contents(v, i) == Contents(u, i); }
  }

  /** n bytes at pos are in one block that a file can have. */
  ghost predicate OneBlock(pos: nat, n: nat)
  {
    forall k: nat {:trigger Folded(k)} | Folded(k) :: pos % 4096 + n <= 4096 && pos / 4096 < SLOTS
  }

  lemma StoreDone(v: Vol, u: Vol, i: nat, pos: nat, d: seq<byte>, total: nat, free: nat)
    requires Whole(v) && Writes(v, u, i, pos, d)
    ensures Written(v, u, i, pos, d) && Takes(v, u, i, {}, true) && Pays(v, u, i, total, free, free) && OneBlock(pos, |d|)
  {
    assert WholeKey(0);
    WriteEffect(v, u, i, pos, d);
    Unfold(v, u, i, pos, d);
    WriteSound(v, u, i, pos, d);
    SameTakes(v, u, i, {}, true, total, free);
  }

  /** A turn of the write loop that gets a block extends the slots taken. */
  lemma TakesNext(v: Vol, w: Vol, u: Vol, i: nat, pos: nat, n: nat, chunk: nat)
    requires 0 < chunk && OneBlock(pos + n, chunk)
    ensures Takes(v, w, i, Touched(pos, n), true) && Takes(w, u, i, Path((pos + n) / 4096), true) ==> Takes(v, u, i, Touched(pos, n + chunk), true)
  {
    assert Folded(0);
    TouchedNext(pos, n, chunk);
    TakesTwice(v, w, u, i, Touched(pos, n), Path((pos + n) / 4096), Touched(pos, n + chunk), true);
  }

  /** One that gets none stays within those wanted. */
  lemma TakesNoMore(v: Vol, w: Vol, u: Vol, i: nat, pos: nat, n: nat, size: nat)
    requires n < size
    ensures Takes(v, w, i, Touched(pos, n), true) && Takes(w, u, i, Path((pos + n) / 4096), false) ==> Takes(v, u, i, Touched(pos, size), false)
  {
    var s, t := Touched(pos, n), Path((pos + n) / 4096);
    TakesTwice(v, w, u, i, s, t, s + t, false);
    TouchedMore(pos, n, size);
    TakesFewer(v, u, i, s + t, Touched(pos, size), false);
  }

  /** A write is done and stays in the partition exactly if the file may be so long and the blocks it lacks are free. */
  lemma WriteFits(v: Vol, w: Vol, i: nat, pos: nat, size: nat, n: nat, total: nat, free: nat, left: nat)
    requires n <= size && if n == size then Takes(v, w, i, Touched(pos, size), true) else Takes(v, w, i, Touched(pos, size), false)
    requires Sound(w) && w.start < total <= 8 * |w.bmap| && i in w.inodes && pos + n <= w.inodes[i].size
    requires n < size ==> (pos + n) / 4096 >= SLOTS || NoClear(w.bmap)
    ensures n == size ==> Keys(w, i) == Keys(v, i) + Touched(pos, size)
    ensures Pays(v, w, i, total, free, left) && AllInside(v, total) ==>
              (n == size && AllInside(w, total) <==> pos + size <= 4096 * SLOTS && |Touched(pos, size) - Keys(v, i)| <= free)
  {
    if n == size { TookAll(v, w, i, Touched(pos, size)); }
    if Pays(v, w, i, total, free, left) && AllInside(v, total) {
      if n == size {
        EnoughIff(v, w, i, Touched(pos, size), total, free, left);
      } else if (pos + n) / 4096 < SLOTS {
        assert Folded(0);
        TooFew(v, w, i, Touched(pos, size), false, total, free, left);
      }
    }
  }

  ghost predicate WholeKey(n: nat) { true }

  /** The volume is sound; kept folded. */
  ghost predicate Whole(v: Vol)
  {
    forall n: nat {:trigger WholeKey(n)} | WholeKey(n) :: Sound(v)
  }

  /** w is sound and every file of v reads in it as before; kept folded. */
  ghost predicate Keeps(v: Vol, w: Vol)
  {
    forall n: nat {:trigger WholeKey(n)} | WholeKey(n) :: Sound(w) && Kept(v, w) && |w.disk| == |v.disk|
  }

  lemma KeepsIs(v: Vol, w: Vol)
    ensures Keeps(v, w) <==> Sound(w) && Kept(v, w) && |w.disk| == |v.disk|
  {
    assert WholeKey(0);
  }

  lemma KeepsWhole(v: Vol, w: Vol)
    ensures Keeps(v, w) ==> Whole(w)
  {
    assert WholeKey(0);
  }

  lemma KeepsTwice(u: Vol, v: Vol, w: Vol)
    ensures Keeps(u, v) && Keeps(v, w) ==> Keeps(u, w)
  {
    assert WholeKey(0);
  }

  lemma Sizes(v: Vol, i: nat)
    requires Whole(v) && i in v.inodes
    ensures |v.inodes[i].blocks| == DIRECT && 0 < v.start && |v.disk| == v.start + 8 * |v.bmap| <= 0x1_0000_0000
    ensures forall s: nat | s < DIRECT :: R(v, i, s) == v.inodes[i].blocks[s]
    ensures R(v, i, SLOTS) == v.inodes[i].indirect
  {
    assert WholeKey(0);
  }

  lemma PointerIs(v: Vol, i: nat, k: nat)
    requires Whole(v) && i in v.inodes && k < 1024 && v.inodes[i].indirect != 0
    ensures v.inodes[i].indirect < |v.disk| && R(v, i, DIRECT + k) == Word(v.disk[v.inodes[i].indirect], k)
  {
    assert WholeKey(0);
    IndirectRange(v, i, k);
  }

  /** A failed allocation marks index 0 and changes nothing else. */
  lemma NoneTaken(v: Vol, w: Vol, i: nat, slots: set<nat>, total: nat, free: nat)
    requires Whole(v) && w == v.(bmap := w.bmap) && Marked(v.bmap, w.bmap, {0}, true)
    ensures Keeps(v, w) && Takes(v, w, i, slots, false) && Pays(v, w, i, total, free, free)
  {
    assert WholeKey(0);
    Reserved(v, w);
    forall j: nat, t: nat ensures R(w, j, t) == R(v, j, t) {}
    SameTakes(v, w, i, slots, false, total, free);
  }

  lemma HeldAlready(v: Vol, i: nat, s: nat, total: nat, free: nat)
    requires Whole(v) && s <= SLOTS && R(v, i, s) != 0
    ensures Keeps(v, v) && Takes(v, v, i, {s}, true) && Pays(v, v, i, total, free, free)
  {
    assert WholeKey(0);
    SameTakes(v, v, i, {s}, true, total, free);
  }

  lemma Untouched(v: Vol, i: nat, total: nat, free: nat)
    requires Whole(v)
    ensures Keeps(v, v) && Takes(v, v, i, {}, false) && Pays(v, v, i, total, free, free)
  {
    assert WholeKey(0);
    SameTakes(v, v, i, {}, false, total, free);
  }

  lemma IndirectRange(v: Vol, i: nat, k: nat)
    requires Sound(v) && i in v.inodes && k < 1024 && v.inodes[i].indirect != 0
    ensures v.start < v.inodes[i].indirect < |v.disk|
    ensures R(v, i, DIRECT + k) == Word(v.disk[v.inodes[i].indirect], k)
  {
    assert R(v, i, SLOTS) == v.inodes[i].indirect;
  }

  lemma DirectAttached(v: Vol, i: nat, s: nat, x: nat, bmap: seq<byte>, w: Vol, total: nat, free: nat)
    requires Whole(v) && |v.disk| == v.start + 8 * |v.bmap| <= 0x1_0000_0000
    requires i in v.inodes && |v.inodes[i].blocks| == DIRECT && s < DIRECT && v.inodes[i].blocks[s] == 0
    requires 0 < x < 8 * |v.bmap| && !Bit(v.bmap, x) && Marked(v.bmap, bmap, {0, x}, true)
    requires var n := v.inodes[i];
             w == Vol(v.disk[v.start + x := ZERO], bmap, v.start, v.inodes[i := n.(blocks := n.blocks[s := v.start + x])])
    ensures Keeps(v, w) && R(w, i, s) == v.start + x
    ensures Takes(v, w, i, {s}, true)
    ensures (free > 0 <==> v.start + x < total) ==> Pays(v, w, i, total, free, if free > 0 then free - 1 else 0)
  {
    assert WholeKey(0);
    AttachDirect(v, i, s, x, bmap, w);
    Attached(v, w, i, s, x);
    AttachTakes(v, w, i, s, x);
    if free > 0 <==> v.start + x < total { AttachPays(v, w, i, s, x, total, free, if free > 0 then free - 1 else 0); }
  }

  lemma IndirectAttached(v: Vol, i: nat, x: nat, bmap: seq<byte>, w: Vol, total: nat, free: nat)
    requires Whole(v) && |v.disk| == v.start + 8 * |v.bmap| <= 0x1_0000_0000
    requires i in v.inodes && |v.inodes[i].blocks| == DIRECT && v.inodes[i].indirect == 0
    requires 0 < x < 8 * |v.bmap| && !Bit(v.bmap, x) && Marked(v.bmap, bmap, {0, x}, true)
    requires w == Vol(v.disk[v.start + x := ZERO], bmap, v.start, v.inodes[i := v.inodes[i].(indirect := v.start + x)])
    ensures Keeps(v, w)
    ensures Takes(v, w, i, {SLOTS}, true)
    ensures (free > 0 <==> v.start + x < total) ==> Pays(v, w, i, total, free, if free > 0 then free - 1 else 0)
  {
    assert WholeKey(0);
    AttachIndirect(v, i, x, bmap, w);
    Attached(v, w, i, SLOTS, x);
    AttachTakes(v, w, i, SLOTS, x);
    if free > 0 <==> v.start + x < total { AttachPays(v, w, i, SLOTS, x, total, free, if free > 0 then free - 1 else 0); }
  }

  lemma PointerAttached(v: Vol, i: nat, k: nat, x: nat, bmap: seq<byte>, w: Vol, total: nat, free: nat)
    requires Whole(v) && |v.disk| == v.start + 8 * |v.bmap| <= 0x1_0000_0000
    requires i in v.inodes && |v.inodes[i].blocks| == DIRECT && k < 1024 && v.inodes[i].indirect != 0 && R(v, i, DIRECT + k) == 0
    requires 0 < x < 8 * |v.bmap| && !Bit(v.bmap, x) && Marked(v.bmap, bmap, {0, x}, true)
    requires var q := v.inodes[i].indirect;
             q < |v.disk| && w == Vol(v.disk[v.start + x := ZERO][q := PutWord(v.disk[q], k, v.start + x)], bmap, v.start, v.inodes)
    ensures Keeps(v, w) && R(w, i, DIRECT + k) == v.start + x
    ensures Takes(v, w, i, {DIRECT + k}, true)
    ensures (free > 0 <==> v.start + x < total) ==> Pays(v, w, i, total, free, if free > 0 then free - 1 else 0)
  {
    assert WholeKey(0);
    var q := v.inodes[i].indirect;
    FreshRefs(v, x, v.disk[v.start + x := ZERO], i, SLOTS);
    AttachPointer(v, i, k, x, bmap, v.(disk := v.disk[v.start + x := ZERO]), w);
    Attached(v, w, i, DIRECT + k, x);
    AttachTakes(v, w, i, DIRECT + k, x);
    if free > 0 <==> v.start + x < total { AttachPays(v, w, i, DIRECT + k, x, total, free, if free > 0 then free - 1 else 0); }
  }
}
