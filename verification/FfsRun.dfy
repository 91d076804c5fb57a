/** Runs of file operations of kernel/vfs/ffs.c on the files of the root directory. */
module FfsRun {
  import opened Bits
  import opened Bitmap
  import opened FfsModel
  import opened FfsRelease
  import opened FfsSpace
  import opened FfsVolume
  import opened FfsDirectory
  import opened FfsInodes
  import opened FfsFiles
  import opened FfsFormat
  import Dir = FfsDir

  /** What callers do: open with VFS_O_CREAT, open, seek and write, and unlink. */
  datatype Op = Make(name: Name, trunc: bool) | Put(name: Name, offset: nat, data: seq<byte>) | Delete(name: Name)

  /** An operation on a map from names to contents. */
  function Apply(files: map<Name, seq<byte>>, op: Op): map<Name, seq<byte>>
  {
    match op
    case Make(n, trunc) => if n in files && !trunc then files else files[n := []]
    case Put(n, offset, data) =>
      if n in files && offset <= |files[n]| then files[n := Splice(files[n], offset, data)] else files
    case Delete(n) => files - {n}
  }

  function ApplyAll(files: map<Name, seq<byte>>, ops: seq<Op>): map<Name, seq<byte>>
  {
    if ops == [] then files else Apply(ApplyAll(files, ops[..|ops| - 1]), ops[|ops| - 1])
  }

  /** The name can be made a file within the partition: it is new, an inode is free and the directory entry fits. */
  ghost predicate CanMake(v: Vol, name: Name, free: nat, spare: nat)
  {
    && 1 in v.inodes && IsDir(Contents(v, 1)) && !Dir.Named(All(Contents(v, 1)), name) && name != [] && spare > 0
    && EntryFits(Contents(v, 1), Dir.Need(|name|), Keys(v, 1), free)
  }

  /** Inode i can take n bytes at offset within the partition: it may be so long, and the blocks it lacks are free. */
  ghost predicate CanPut(v: Vol, i: nat, offset: nat, n: nat, free: nat)
  {
    && i in v.inodes && offset <= v.inodes[i].size && 0 < n && offset + n <= 4096 * SLOTS
    && |Touched(offset, n) - Keys(v, i)| <= free
  }

  /** The name leads to inode i, which is not the root. */
  ghost predicate FileOf(v: Vol, name: Name, i: nat)
  {
    1 in v.inodes && IsDir(Contents(v, 1)) && i != 1 && exists e :: e in All(Contents(v, 1)) && e.name == name && e.ino == i
  }

  lemma GainedInside(v: Vol, w: Vol, i: nat, total: nat)
    requires Gained(v, w, i) && AllInside(v, total)
    ensures AllInside(w, total) <==> Inside(w, i, total)
  {}

  lemma PaidInside(v: Vol, w: Vol, i: nat, total: nat, free: nat, left: nat)
    requires Pays(v, w, i, total, free, left) && AllInside(v, total)
    ensures AllInside(w, total) <==> Inside(w, i, total)
  {
    assert PaysKey(0);
    GainedInside(v, w, i, total);
  }

  /** w is u with the entry e more in the root directory; kept folded. */
  ghost predicate Entered(u: Vol, w: Vol, e: Dir.Entry)
  {
    forall n: nat {:trigger MountKey(n)} | MountKey(n) ::
      1 in u.inodes && IsDir(Contents(u, 1)) && Relisted(u, w, 1, All(Contents(u, 1)) + multiset{e})
  }

  /** The outcome of a lookup; kept folded. */
  ghost predicate Found(v: Vol, files: map<Name, seq<byte>>, name: Name, ino: nat, e: Dir.Entry)
  {
    forall n: nat {:trigger MountKey(n)} | MountKey(n) ::
      && Sound(v) && 1 in v.inodes && IsDir(Contents(v, 1)) && Tree(v, All(Contents(v, 1)), files)
      && (ino == 0 <==> !Dir.Named(All(Contents(v, 1)), name))
      && (ino != 0 ==> e in All(Contents(v, 1)) && e.name == name && e.ino == ino && ino in v.inodes)
      && (ino > 1 <==> name in files) && (ino > 1 ==> files[name] == Contents(v, ino))
  }

  lemma FoundFree(v: Vol, files: map<Name, seq<byte>>, name: Name, ino: nat, e: Dir.Entry, free: nat, spare: nat)
    requires Found(v, files, name, ino, e)
    ensures ino != 0 ==> !CanMake(v, name, free, spare)
  {
    assert MountKey(0);
  }

  lemma FoundFile(v: Vol, files: map<Name, seq<byte>>, name: Name, ino: nat, e: Dir.Entry)
    requires Found(v, files, name, ino, e)
    ensures FileOf(v, name, ino) <==> name in files
  {
    assert MountKey(0);
  }

  /** w is v with data spliced into inode i; kept folded. */
  ghost predicate PutNow(v: Vol, w: Vol, i: nat, offset: nat, data: seq<byte>)
  {
    forall n: nat {:trigger MountKey(n)} | MountKey(n) :: Wrote(v, w, i, offset, data)
  }

  lemma PutDone(v: Vol, w: Vol, files: map<Name, seq<byte>>, name: Name, i: nat, e: Dir.Entry, offset: nat, data: seq<byte>)
    requires Found(v, files, name, i, e) && i > 1 && name in files && Mounted(v, files)
    ensures PutNow(v, w, i, offset, data) ==> offset <= |files[name]| && i in w.inodes && Mounted(w, Apply(files, Put(name, offset, data)))
  {
    assert MountKey(0);
    if PutNow(v, w, i, offset, data) { Edited(v, w, e, files); }
  }

  lemma FileUnique(v: Vol, files: map<Name, seq<byte>>, name: Name, i: nat, j: nat)
    requires Mounted(v, files)
    ensures FileOf(v, name, i) ==> name in files && (FileOf(v, name, j) ==> i == j)
  {
    MountedIs(v, files);
    if FileOf(v, name, i) { TreeFind(v, All(Contents(v, 1)), files, name); }
  }

  ghost predicate PutFits(v: Vol, name: Name, offset: nat, n: nat, free: nat)
  {
    exists i: nat {:trigger FileOf(v, name, i)} :: FileOf(v, name, i) && CanPut(v, i, offset, n, free)
  }

  lemma PutFitsIs(v: Vol, files: map<Name, seq<byte>>, name: Name, ino: nat, offset: nat, n: nat, free: nat)
    requires Mounted(v, files) && (name in files <==> FileOf(v, name, ino))
    ensures PutFits(v, name, offset, n, free) <==> FileOf(v, name, ino) && CanPut(v, ino, offset, n, free)
  {
    if PutFits(v, name, offset, n, free) {
      var i: nat :| FileOf(v, name, i) && CanPut(v, i, offset, n, free);
      FileUnique(v, files, name, i, ino);
    }
  }

  /** When an operation can be done within the partition, with these numbers of free blocks and inodes. */
  ghost predicate Fits(v: Vol, files: map<Name, seq<byte>>, op: Op, free: nat, spare: nat)
  {
    match op
    case Make(n, _) => 0 < |n| <= 255 && (n in files || CanMake(v, n, free, spare))
    case Put(n, offset, data) => |n| <= 255 && PutFits(v, n, offset, |data|, free)
    case Delete(n) => |n| <= 255 && n in files
  }

  /** w is v with the entry e of the root directory gone; kept folded. */
  ghost predicate Removed(v: Vol, w: Vol, e: Dir.Entry)
  {
    forall n: nat {:trigger MountKey(n)} | MountKey(n) ::
      1 in v.inodes && IsDir(Contents(v, 1)) && Relisted(v, w, 1, All(Contents(v, 1)) - multiset{e})
  }

  /** w is v with inode i gone and its blocks given back; kept folded. */
  ghost predicate TrimmedAway(v: Vol, w: Vol, i: nat, total: nat)
  {
    forall n: nat {:trigger MountKey(n)} | MountKey(n) :: Trims(v, w, i, total)
  }

  lemma UnlinkDone(v: Vol, u: Vol, w: Vol, files: map<Name, seq<byte>>, name: Name, i: nat, e: Dir.Entry, total: nat)
    requires Found(v, files, name, i, e) && Mounted(v, files) && i > 1 && w.inodes == u.inodes - {i} && Whole(w)
    ensures Removed(v, u, e) && TrimmedAway(u, w, i, total) ==> Mounted(w, files - {name}) && w.inodes.Keys == v.inodes.Keys - {i}
  {
    assert MountKey(0);
    if Removed(v, u, e) && TrimmedAway(u, w, i, total) {
      assert Sound(w) by { assert WholeKey(0); }
      Unlinked(v, u, w, e, files, total);
    }
  }

  lemma KeysWith(m: map<nat, Inode>, i: nat)
    ensures m[i := EMPTY].Keys == m.Keys + {i}
  {}

  lemma KeysWithout(m: map<nat, Inode>, used: set<nat>, i: nat)
    requires i !in used && m.Keys == used + {i}
    ensures (m - {i}).Keys == used
  {}

  lemma Prepared(v: Vol, u: Vol, e: Dir.Entry, files: map<Name, seq<byte>>, total: nat)
    requires Mounted(v, files) && e.ino !in v.inodes && u == v.(inodes := v.inodes[e.ino := EMPTY])
    ensures Whole(u) && 1 in v.inodes && 1 in u.inodes && IsDir(Contents(u, 1)) && Contents(u, 1) == Contents(v, 1) && Keys(u, 1) == Keys(v, 1)
    ensures AllInside(v, total) ==> AllInside(u, total)
  {
    MountedIs(v, files);
    NewInode(v, u, e.ino);
    SameTakes(v, u, 1, {}, true, total, 0);
  }

  /** The root directory of w has the entries of that of v and e. */
  ghost predicate Gains(v: Vol, w: Vol, e: Dir.Entry)
  {
    && 1 in v.inodes && IsDir(Contents(v, 1)) && 1 in w.inodes && IsDir(Contents(w, 1))
    && All(Contents(w, 1)) == All(Contents(v, 1)) + multiset{e}
  }

  lemma MadeEntry(v: Vol, u: Vol, w: Vol, e: Dir.Entry, files: map<Name, seq<byte>>)
    requires Mounted(v, files) && e.ino !in v.inodes && u == v.(inodes := v.inodes[e.ino := EMPTY])
    requires 1 in v.inodes && IsDir(Contents(v, 1)) && !Dir.Named(All(Contents(v, 1)), e.name)
    ensures Entered(u, w, e) ==> Mounted(w, files[e.name := []]) && Gains(v, w, e)
  {
    assert MountKey(0);
    NewInode(v, u, e.ino);
    if Entered(u, w, e) { Made(v, u, w, e, files); }
  }

  /** What a run passes through: the volume, its files, free_blocks, the inode bitmap and free_inodes. */
  datatype State = State(v: Vol, files: map<Name, seq<byte>>, free: nat, marks: seq<byte>, spare: nat)

  /** Blocks are owned exactly and lie in the partition, both counters and the inode bitmap are right, and the names lead to
      the files; kept folded. */
  ghost predicate Exact(s: State, total: nat, count: nat)
  {
    forall n: nat {:trigger MountKey(n)} | MountKey(n) ::
      && Mounted(s.v, s.files) && AllInside(s.v, total)
      && s.v.start < total <= 8 * |s.v.bmap| && s.free == Clear(s.v.bmap, total - s.v.start)
      && Matches(s.marks, count, s.v.inodes.Keys) && s.spare == Clear(s.marks, count)
  }

  ghost predicate FitsKey(n: nat) { true }

  /** The operation can be done in this state; kept folded. */
  ghost predicate FitsIn(s: State, op: Op)
  {
    forall n: nat {:trigger FitsKey(n)} | FitsKey(n) :: Fits(s.v, s.files, op, s.free, s.spare)
  }

  lemma FitsInIs(s: State, op: Op)
    ensures FitsIn(s, op) <==> Fits(s.v, s.files, op, s.free, s.spare)
  {
    assert FitsKey(0);
  }

  /** s has the files that the first n operations make of those given; kept folded. */
  ghost predicate Follows(s: State, files: map<Name, seq<byte>>, ops: seq<Op>, n: nat)
  {
    forall k: nat {:trigger Folded(k)} | Folded(k) :: n <= |ops| && s.files == ApplyAll(files, ops[..n])
  }

  /** In every state of the run all is right, and the files are those of the same run on a map; each operation fitted. */
  ghost predicate Traced(trace: seq<State>, ops: seq<Op>, files: map<Name, seq<byte>>, total: nat, count: nat)
  {
    && 0 < |trace| <= |ops| + 1
    && (forall k: nat {:trigger trace[k]} | k < |trace| :: Exact(trace[k], total, count) && Follows(trace[k], files, ops, k))
    && (forall k: nat {:trigger trace[k]} | k < |trace| - 1 :: FitsIn(trace[k], ops[k]))
  }

  lemma TraceOne(s: State, ops: seq<Op>, total: nat, count: nat)
    requires Exact(s, total, count)
    ensures Traced([s], ops, s.files, total, count)
  {
    assert ops[..0] == [];
  }

  lemma FollowsNext(s: State, t: State, files: map<Name, seq<byte>>, ops: seq<Op>, n: nat)
    requires Follows(s, files, ops, n) && n < |ops| && t.files == Apply(s.files, ops[n])
    ensures Follows(t, files, ops, n + 1)
  {
    assert Folded(0);
    assert ops[..n + 1][..n] == ops[..n];
  }

  lemma TraceNext(trace: seq<State>, s: State, ops: seq<Op>, files: map<Name, seq<byte>>, total: nat, count: nat)
    requires Traced(trace, ops, files, total, count) && |trace| <= |ops| && Exact(s, total, count)
    requires var last := trace[|trace| - 1]; FitsIn(last, ops[|trace| - 1]) && s.files == Apply(last.files, ops[|trace| - 1])
    ensures Traced(trace + [s], ops, files, total, count)
  {
    var n, more := |trace|, trace + [s];
    FollowsNext(trace[n - 1], s, files, ops, n - 1);
    forall k: nat {:trigger more[k]} | k < |more| ensures Exact(more[k], total, count) && Follows(more[k], files, ops, k) {
      if k < n { assert more[k] == trace[k]; }
    }
    forall k: nat {:trigger more[k]} | k < |more| - 1 ensures FitsIn(more[k], ops[k]) { assert more[k] == trace[k]; }
  }

  /** The mounted volume with its files in the root directory. */
  class FileSystem {
    const vol: Volume
    const tab: InodeMap
    ghost var files: map<Name, seq<byte>>

    constructor (v: Volume, t: InodeMap, ghost f: map<Name, seq<byte>>)
      ensures vol == v && tab == t && files == f
    {
      vol, tab, files := v, t, f;
    }

    /** Blocks are owned exactly, both counters are right, the inode bitmap is right, and the names lead to the files. */
    ghost predicate Sane()
      reads this, vol, vol.bmap, tab, tab.bits
    {
      && vol.bmap != tab.bits && vol.Laid() && vol.Counted() && tab.Laid() && tab.Counted()
      && Mounted(vol.Now(), files) && Matches(tab.bits[..], tab.count, vol.inodes.Keys)
    }

    /** ... and all blocks lie in the partition. */
    ghost predicate Valid()
      reads this, vol, vol.bmap, tab, tab.bits
    {
      Sane() && AllInside(vol.Now(), vol.total)
    }

    /** ffs_path_lookup of a name in the root directory: an inode other than the root's exactly if it is a file. */
    method Find(name: Name) returns (ino: nat, ghost e: Dir.Entry)
      requires Sane()
      ensures Found(vol.Now(), files, name, ino, e) && (ino > 1 <==> name in files) && (ino != 0 ==> ino in vol.inodes)
    {
      MountedIs(vol.Now(), files);
      var dir := new Context(1, vol.inodes[1]);
      ino, e := Lookup(vol, dir, name);
      TreeFind(vol.Now(), All(Contents(vol.Now(), 1)), files, name);
    }

    /** ffs_dir_add to the root directory. */
    method AddToRoot(e: Dir.Entry) returns (ok: bool)
      requires vol.Laid() && vol.Counted() && Whole(vol.Now()) && AllInside(vol.Now(), vol.total)
      requires 1 in vol.inodes && IsDir(Contents(vol.Now(), 1)) && 0 < e.ino < 0x1_0000_0000 && |e.name| <= 255
      modifies vol`disk, vol`freeBlocks, vol`inodes, vol.bmap
      ensures vol.Counted() && vol.inodes.Keys == old(vol.inodes.Keys)
      ensures ok ==> Entered(old(vol.Now()), vol.Now(), e)
      ensures ok ==> (AllInside(vol.Now(), vol.total) <==> Inside(vol.Now(), 1, vol.total))
      ensures ok && AllInside(vol.Now(), vol.total) <==>
                EntryFits(old(Contents(vol.Now(), 1)), Dir.Need(|e.name|), old(Keys(vol.Now(), 1)), old(vol.freeBlocks))
    {
      ghost var v := vol.Now();
      assert WholeKey(0);
      var dir := new Context(1, vol.inodes[1]);
      ok := Add(vol, dir, e);
      if ok { PaidInside(v, vol.Now(), 1, vol.total, old(vol.freeBlocks), vol.freeBlocks); }
    }

    /** The part of ffs_vfs_open that writes the new inode and its directory entry. */
    method Enter(e: Dir.Entry) returns (ok: bool)
      requires vol.Laid() && vol.Counted() && Mounted(vol.Now(), files) && AllInside(vol.Now(), vol.total)
      requires 1 in vol.inodes && IsDir(Contents(vol.Now(), 1)) && !Dir.Named(All(Contents(vol.Now(), 1)), e.name)
      requires e.ino !in vol.inodes && 0 < e.ino < 0x1_0000_0000 && |e.name| <= 255
      modifies vol`disk, vol`freeBlocks, vol`inodes, vol.bmap
      ensures vol.Counted() && (ok ==> vol.inodes.Keys == old(vol.inodes.Keys) + {e.ino}) && (!ok ==> vol.inodes.Keys == old(vol.inodes.Keys))
      ensures ok ==> Mounted(vol.Now(), files[e.name := []]) && Gains(old(vol.Now()), vol.Now(), e)
      ensures ok ==> (AllInside(vol.Now(), vol.total) <==> Inside(vol.Now(), 1, vol.total))
      ensures ok && AllInside(vol.Now(), vol.total) <==>
                EntryFits(old(Contents(vol.Now(), 1)), Dir.Need(|e.name|), old(Keys(vol.Now(), 1)), old(vol.freeBlocks))
    {
      ghost var v := vol.Now();
      vol.inodes := vol.inodes[e.ino := EMPTY];
      ghost var u := vol.Now();
      Prepared(v, u, e, files, vol.total);
      KeysWith(v.inodes, e.ino);
      ok := AddToRoot(e);
      if ok {
        MadeEntry(v, u, vol.Now(), e, files);
      } else {
        KeysWithout(vol.inodes, v.inodes.Keys, e.ino);
        vol.inodes := vol.inodes - {e.ino};
      }
    }

    /** ffs_vfs_open with VFS_O_CREAT, of a name that is not there: an empty file; done within the partition exactly if an
        inode is free and the directory entry fits. */
    method Create(name: Name, ghost e: Dir.Entry) returns (ino: nat)
      requires Valid() && 0 < |name| <= 255 && Found(vol.Now(), files, name, 0, e)
      modifies this`files, vol`disk, vol`freeBlocks, vol`inodes, vol.bmap, tab`free, tab.bits
      ensures ino != 0 ==> Sane() && files == old(files)[name := []] && (AllInside(vol.Now(), vol.total) <==> Inside(vol.Now(), 1, vol.total))
      ensures ino != 0 && AllInside(vol.Now(), vol.total) <==> CanMake(old(vol.Now()), name, old(vol.freeBlocks), old(tab.free))
      ensures ino != 0 ==> ino !in old(vol.inodes) && ino in vol.inodes && Gains(old(vol.Now()), vol.Now(), Dir.Entry(name, ino, 1))
      ensures ino == 0 ==> vol.inodes.Keys == old(vol.inodes.Keys) && tab.free == old(tab.free)
      ensures ino == 0 ==> forall x: nat | 0 < x < tab.count :: Bit(tab.bits[..], x) <==> Bit(old(tab.bits[..]), x)
    {
      ghost var m, used := tab.bits[..], vol.inodes.Keys;
      assert MountKey(0);
      ino := tab.Alloc();
      if ino == 0 { return; }
      if ino >= tab.count {
        tab.Free(ino);
        return 0;
      }
      var ok := Enter(Dir.Entry(name, ino, 1));
      if !ok {
        tab.Free(ino);
        return 0;
      }
      MatchesAlloc(m, tab.bits[..], tab.count, used, ino);
      files := files[name := []];
    }

    /** Opening a file with VFS_O_TRUNC. */
    method Empty(name: Name, ino: nat, ghost e: Dir.Entry)
      requires Valid() && ino > 1 && ino in vol.inodes && Found(vol.Now(), files, name, ino, e)
      modifies this`files, vol`freeBlocks, vol`inodes, vol.bmap
      ensures Valid() && files == old(files)[name := []]
    {
      ghost var v := vol.Now();
      assert MountKey(0);
      var ctx := new Context(ino, vol.inodes[ino]);
      vol.Truncate(ctx);
      Edited(v, vol.Now(), e, files);
      files := files[name := []];
    }

    /** ffs_vfs_open of a name in the root directory, without VFS_O_DIR: 0 if it fails. */
    method Open(name: Name, creat: bool, trunc: bool) returns (ino: nat)
      requires Valid() && |name| <= 255
      modifies this`files, vol`disk, vol`freeBlocks, vol`inodes, vol.bmap, tab`free, tab.bits
      ensures name in old(files) && name != [] ==> ino != 0 && Valid() && files == if trunc then old(files)[name := []] else old(files)
      ensures name !in old(files) && ino != 0 ==>
                Sane() && files == old(files)[name := []] && (AllInside(vol.Now(), vol.total) <==> Inside(vol.Now(), 1, vol.total))
      ensures name !in old(files) ==>
                (ino != 0 && AllInside(vol.Now(), vol.total) <==> creat && CanMake(old(vol.Now()), name, old(vol.freeBlocks), old(tab.free)))
    {
      if name == [] { return 0; }
      ghost var e;
      ino, e := Find(name);
      FoundFree(vol.Now(), files, name, ino, e, vol.freeBlocks, tab.free);
      if ino == 0 {
        if creat { ino := Create(name, e); }
        return;
      }
      if ino == 1 { return 0; }
      if trunc { Empty(name, ino, e); }
    }

    /** ffs_vfs_write through a new context. */
    method WriteInode(ino: nat, offset: nat, data: seq<byte>) returns (ok: bool)
      requires vol.Laid() && vol.Counted() && Whole(vol.Now()) && AllInside(vol.Now(), vol.total) && ino in vol.inodes
      requires offset <= vol.inodes[ino].size
      modifies vol`disk, vol`freeBlocks, vol`inodes, vol.bmap
      ensures vol.Counted() && vol.inodes.Keys == old(vol.inodes.Keys) && (ok ==> PutNow(old(vol.Now()), vol.Now(), ino, offset, data))
      ensures ok ==> (AllInside(vol.Now(), vol.total) <==> Inside(vol.Now(), ino, vol.total))
      ensures ok && AllInside(vol.Now(), vol.total) <==> CanPut(old(vol.Now()), ino, offset, |data|, old(vol.freeBlocks))
    {
      ghost var v := vol.Now();
      assert WholeKey(0);
      var ctx := new Context(ino, vol.inodes[ino]);
      ctx.offset := offset;
      var status;
      ghost var done;
      status, done := vol.Write(ctx, data);
      ok := status == Ok;
      assert ok ==> data[..done] == data;
      PaidInside(v, vol.Now(), ino, vol.total, old(vol.freeBlocks), vol.freeBlocks);
    }

    /** ffs_vfs_write to a file just opened. */
    method WriteTo(name: Name, ino: nat, offset: nat, data: seq<byte>, ghost e: Dir.Entry) returns (ok: bool)
      requires Valid() && ino > 1 && ino in vol.inodes && Found(vol.Now(), files, name, ino, e) && offset <= vol.inodes[ino].size && name in files
      modifies this`files, vol`disk, vol`freeBlocks, vol`inodes, vol.bmap
      ensures ok ==> Sane() && offset <= |old(files)[name]| && files == Apply(old(files), Put(name, offset, data)) && ino in vol.inodes
      ensures ok ==> (AllInside(vol.Now(), vol.total) <==> Inside(vol.Now(), ino, vol.total))
      ensures ok && AllInside(vol.Now(), vol.total) <==> CanPut(old(vol.Now()), ino, offset, |data|, old(vol.freeBlocks))
    {
      ghost var v := vol.Now();
      assert Whole(v) by { assert MountKey(0); }
      ok := WriteInode(ino, offset, data);
      if ok {
        PutDone(v, vol.Now(), files, name, ino, e, offset, data);
        files := Apply(files, Put(name, offset, data));
      }
    }

    /** Opening a file, ffs_vfs_seek and ffs_vfs_write, for an offset up to the end of the file. */
    method Save(name: Name, offset: nat, data: seq<byte>) returns (ok: bool, ino: nat)
      requires Valid() && |name| <= 255
      modifies this`files, vol`disk, vol`freeBlocks, vol`inodes, vol.bmap
      ensures name in old(files) <==> FileOf(old(vol.Now()), name, ino)
      ensures ok ==> name in old(files) && offset <= |old(files)[name]|
      ensures ok ==> Sane() && files == Apply(old(files), Put(name, offset, data)) && ino in vol.inodes
      ensures ok ==> (AllInside(vol.Now(), vol.total) <==> Inside(vol.Now(), ino, vol.total))
      ensures ok && AllInside(vol.Now(), vol.total) <==>
                FileOf(old(vol.Now()), name, ino) && CanPut(old(vol.Now()), ino, offset, |data|, old(vol.freeBlocks))
    {
      ghost var e;
      ino, e := Find(name);
      FoundFile(vol.Now(), files, name, ino, e);
      if ino <= 1 || offset > vol.inodes[ino].size { return false, ino; }
      ok := WriteTo(name, ino, offset, data, e);
    }

    /** ffs_dir_remove in the root directory. */
    method RemoveName(name: Name, ino: nat, ghost e: Dir.Entry)
      requires vol.Laid() && ino > 1 && Found(vol.Now(), files, name, ino, e) && AllInside(vol.Now(), vol.total)
      modifies vol`disk
      ensures Removed(old(vol.Now()), vol.Now(), e) && AllInside(vol.Now(), vol.total)
    {
      ghost var v := vol.Now();
      assert MountKey(0);
      var dir := new Context(1, vol.inodes[1]);
      var ok;
      ghost var f;
      ok, f := Remove(vol, dir, name);
      TreeFind(v, All(Contents(v, 1)), files, name);
    }

    /** The rest of ffs_vfs_unlink but for the inode bitmap. */
    method Release(ino: nat)
      requires vol.Laid() && vol.Counted() && Whole(vol.Now()) && AllInside(vol.Now(), vol.total) && ino in vol.inodes
      modifies vol`freeBlocks, vol`inodes, vol.bmap
      ensures vol.Counted() && Whole(vol.Now()) && AllInside(vol.Now(), vol.total)
      ensures vol.inodes == old(vol.inodes) - {ino} && TrimmedAway(old(vol.Now()), vol.Now(), ino, vol.total)
    {
      assert WholeKey(0);
      vol.Unlink(ino);
    }

    /** The part of ffs_vfs_unlink after the lookup. */
    method Discard(name: Name, ino: nat, ghost e: Dir.Entry)
      requires Valid() && ino > 1 && ino in vol.inodes && Found(vol.Now(), files, name, ino, e)
      modifies vol`disk, vol`freeBlocks, vol`inodes, vol.bmap
      ensures Mounted(vol.Now(), files - {name}) && vol.Counted() && AllInside(vol.Now(), vol.total)
      ensures vol.inodes.Keys == old(vol.inodes.Keys) - {ino}
    {
      ghost var v := vol.Now();
      RemoveName(name, ino, e);
      ghost var u := vol.Now();
      assert Whole(u) by { assert MountKey(0); }
      Release(ino);
      UnlinkDone(v, u, vol.Now(), files, name, ino, e, vol.total);
    }

    /** ffs_vfs_unlink */
    method Unlink(name: Name) returns (ok: bool)
      requires Valid() && |name| <= 255
      modifies this`files, vol`disk, vol`freeBlocks, vol`inodes, vol.bmap, tab`free, tab.bits
      ensures ok <==> name in old(files)
      ensures Valid() && files == old(files) - {name}
    {
      var ino;
      ghost var e;
      ino, e := Find(name);
      if ino <= 1 {
        assert files - {name} == files;
        return false;
      }
      ghost var m, used := tab.bits[..], vol.inodes.Keys;
      Discard(name, ino, e);
      tab.Free(ino);
      MatchesFree(m, tab.bits[..], tab.count, used, ino);
      files := files - {name};
      ok := true;
    }

    /** Whether the blocks of inode ino lie in the partition. */
    method Check(ino: nat) returns (ok: bool)
      requires Sane() && ino in vol.inodes
      ensures ok <==> Inside(vol.Now(), ino, vol.total)
    {
      MountedIs(vol.Now(), files);
      var ctx := new Context(ino, vol.inodes[ino]);
      ok := vol.Audit(ctx);
    }

    method DoMake(name: Name, trunc: bool) returns (ok: bool)
      requires Valid() && |name| <= 255
      modifies this`files, vol`disk, vol`freeBlocks, vol`inodes, vol.bmap, tab`free, tab.bits
      ensures ok ==> Valid() && files == Apply(old(files), Make(name, trunc))
      ensures ok <==> name != [] && (name in old(files) || CanMake(old(vol.Now()), name, old(vol.freeBlocks), old(tab.free)))
    {
      if name == [] { return false; }
      var ino := Open(name, true, trunc);
      if ino == 0 { return false; }
      assert 1 in vol.inodes by { MountedIs(vol.Now(), files); }
      ok := Check(1);
    }

    method DoPut(name: Name, offset: nat, data: seq<byte>) returns (ok: bool)
      requires Valid() && |name| <= 255
      modifies this`files, vol`disk, vol`freeBlocks, vol`inodes, vol.bmap, tab`free, tab.bits
      ensures ok ==> Valid() && files == Apply(old(files), Put(name, offset, data))
      ensures ok <==> PutFits(old(vol.Now()), name, offset, |data|, old(vol.freeBlocks))
    {
      var ino;
      ok, ino := Save(name, offset, data);
      PutFitsIs(old(vol.Now()), old(files), name, ino, offset, |data|, old(vol.freeBlocks));
      if ok { ok := Check(ino); }
    }

    /** One operation; false if it fails or takes a block behind the partition, and that exactly if it does not fit. */
    method Do(op: Op) returns (ok: bool)
      requires Valid()
      modifies this`files, vol`disk, vol`freeBlocks, vol`inodes, vol.bmap, tab`free, tab.bits
      ensures ok <==> FitsIn(old(Now()), op)
      ensures ok ==> Valid() && files == Apply(old(files), op)
    {
      FitsInIs(Now(), op);
      if |op.name| > 255 { return false; }
      match op
      case Make(n, trunc) => ok := DoMake(n, trunc);
      case Put(n, offset, data) => ok := DoPut(n, offset, data);
      case Delete(n) => ok := Unlink(n);
    }

    ghost function Now(): State
      reads this, vol, vol.bmap, tab, tab.bits
    {
      State(vol.Now(), files, vol.freeBlocks, tab.bits[..], tab.free)
    }

    /** Any run of operations, up to the first that does not fit: ownership, counters, placement, the inode bitmap and the
        directory are right in every state of the run, and the files are those of the same run on a map from names to
        contents. */
    method Run(ops: seq<Op>) returns (done: nat, ghost trace: seq<State>)
      requires Valid()
      modifies this`files, vol`disk, vol`freeBlocks, vol`inodes, vol.bmap, tab`free, tab.bits
      ensures done <= |ops| && |trace| == done + 1 && trace[0] == old(Now()) && Traced(trace, ops, old(files), vol.total, tab.count)
      ensures if done == |ops| then Valid() && trace[done] == Now() && files == ApplyAll(old(files), ops) else !FitsIn(trace[done], ops[done])
    {
      done, trace := 0, [Now()];
      ValidExact();
      TraceOne(Now(), ops, vol.total, tab.count);
      while done < |ops|
        invariant done <= |ops| && Valid() && |trace| == done + 1 && trace[0] == old(Now()) && trace[done] == Now()
        invariant Traced(trace, ops, old(files), vol.total, tab.count)
      {
        var ok := Do(ops[done]);
        if !ok { return; }
        ValidExact();
        TraceNext(trace, Now(), ops, old(files), vol.total, tab.count);
        trace := trace + [Now()];
        done := done + 1;
      }
      assert Folded(0);
      assert ops[..done] == ops;
    }

    lemma ValidExact()
      requires Valid()
      ensures Exact(Now(), vol.total, tab.count)
    {}
  }

  // ---------- from ffs_format on ----------

  lemma {:induction false} ThreeBits(i: nat)
    ensures BitOf(3, i) <==> i < 2
  {
    if i == 1 { assert BitOf(1, 0); }
    if i > 1 { OneBit(i - 1); }
  }

  lemma {:induction false} OneBit(i: nat)
    ensures BitOf(1, i) <==> i == 0
  {
    if i > 0 { ZeroBit(i - 1); }
  }

  /** The inode bitmap ffs_format writes: the root's is in use. */
  lemma RootOnly(zero: seq<byte>, m: seq<byte>, count: nat)
    requires 1 < count <= 8 * |m| && |zero| == |m| && (forall k | 0 <= k < |m| :: zero[k] == 0)
    requires m == zero[0 := 3]
    ensures Matches(m, count, {1}) && Clear(m, count) == count - 2
  {
    forall x: nat | x < 8 * |m| ensures !Bit(zero, x) { ZeroBit(x % 8); }
    forall x: nat | x < 8 * |m| ensures Bit(m, x) <==> x < 2 {
      ThreeBits(x % 8);
      ZeroBit(x % 8);
    }
    AllClear(zero, count);
    ClearMarked(zero, m, 1, count);
  }

  method MakeTable(count: nat) returns (tab: InodeMap)
    requires 1 < count <= 65535
    ensures fresh(tab) && fresh(tab.bits) && tab.Laid() && tab.Counted() && tab.free == count - 2 && tab.count == count
    ensures Matches(tab.bits[..], tab.count, {1})
  {
    var bits := new byte[(count + 7) / 8](_ => 0);
    ghost var zero := bits[..];
    bits[0] := 3;
    RootOnly(zero, bits[..], count);
    tab := new InodeMap(bits, count, count - 2);
  }

  lemma RootMounted(v: Vol)
    requires Sound(v) && v.inodes.Keys == {1} && IsDir(Contents(v, 1)) && All(Contents(v, 1)) == multiset{DOT, DOTDOT}
    ensures Mounted(v, map[])
  {
    MountedIs(v, map[]);
    RootTree(v, All(Contents(v, 1)));
  }

  lemma RootTree(v: Vol, m: multiset<Dir.Entry>)
    requires v.inodes.Keys == {1} && m == multiset{DOT, DOTDOT}
    ensures Tree(v, m, map[])
  {
    assert DOT.name[0] == 46 && |DOT.name| == 1 && |DOTDOT.name| == 2;
    forall e | e in m ensures (e == DOT || e == DOTDOT) && m[e] == 1 {}
  }

  /** ffs_format and mounting: no files, and free blocks and inodes as the superblock says. */
  method Mkfs(dev: seq<Sector>, total: nat) returns (fs: FileSystem?)
    requires |dev| == DataStart(total) + 8 * ((total + 7) / 8) <= 0x1_0000_0000
    ensures fs == null <==> total < 32 || DataStart(total) + 2 >= total
    ensures fs != null ==> fresh(fs) && fresh(fs.vol) && fresh(fs.vol.bmap) && fresh(fs.tab) && fresh(fs.tab.bits) && fs.Valid() && fs.files == map[]
    ensures fs != null ==> fs.vol.total == total && fs.vol.freeBlocks == total - DataStart(total) - 2 && fs.tab.free == InodeCount(total) - 2
  {
    var vol := Format(dev, total);
    if vol == null { return null; }
    var tab := MakeTable(InodeCount(total));
    RootMounted(vol.Now());
    fs := new FileSystem(vol, tab, map[]);
  }

  /** Every run from a formatted volume on. */
  method Session(dev: seq<Sector>, total: nat, ops: seq<Op>) returns (fs: FileSystem?, done: nat, ghost trace: seq<State>)
    requires |dev| == DataStart(total) + 8 * ((total + 7) / 8) <= 0x1_0000_0000
    ensures fs == null <==> total < 32 || DataStart(total) + 2 >= total
    ensures fs != null ==> done <= |ops| && |trace| == done + 1 && fs.vol.total == total
    ensures fs != null ==> Traced(trace, ops, map[], total, fs.tab.count)
    ensures fs != null ==> if done == |ops| then fs.Valid() && fs.files == ApplyAll(map[], ops) else !FitsIn(trace[done], ops[done])
  {
    done, trace := 0, [];
    fs := Mkfs(dev, total);
    if fs != null { done, trace := fs.Run(ops); }
  }
}
