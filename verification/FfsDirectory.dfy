/** Directories of kernel/vfs/ffs.c as files of tiled blocks: lookup, add and remove across blocks. */
module FfsDirectory {
  import opened Bits
  import opened Bitmap
  import opened FfsModel
  import opened FfsSpace
  import opened FfsVolume
  import Dir = FfsDir

  /** Block k of the contents of a file. */
  ghost function Blk(c: seq<byte>, k: nat): Sector
    requires 4096 * k + 4096 <= |c|
  {
    c[4096 * k..4096 * k + 4096]
  }

  ghost predicate IsDir(c: seq<byte>)
  {
    |c| % 4096 == 0 && forall k: nat | 4096 * k + 4096 <= |c| :: Dir.Tiles(Blk(c, k), 0)
  }

  ghost function Sum(ms: seq<multiset<Dir.Entry>>): multiset<Dir.Entry>
  {
    if ms == [] then multiset{} else Sum(ms[..|ms| - 1]) + ms[|ms| - 1]
  }

  lemma {:induction false} SumUpdate(ms: seq<multiset<Dir.Entry>>, k: nat, m: multiset<Dir.Entry>)
    requires k < |ms|
    ensures ms[k] <= Sum(ms) && Sum(ms[k := m]) == Sum(ms) - ms[k] + m
  {
    var n := |ms| - 1;
    if k < n {
      SumUpdate(ms[..n], k, m);
      assert ms[k := m][..n] == ms[..n][k := m];
    } else {
      assert ms[k := m][..n] == ms[..n];
    }
  }

  /** What block k lists. */
  ghost function Listed(c: seq<byte>, k: int): multiset<Dir.Entry>
  {
    if 0 <= k && 4096 * k + 4096 <= |c| && Dir.Tiles(Blk(c, k), 0) then Dir.Entries(Blk(c, k), 0) else multiset{}
  }

  /** What each block lists. */
  ghost function Lists(c: seq<byte>): (ms: seq<multiset<Dir.Entry>>)
    requires IsDir(c)
    ensures |ms| == |c| / 4096 && forall k: nat | k < |ms| :: ms[k] == Dir.Entries(Blk(c, k), 0)
  {
    seq(|c| / 4096, k => Listed(c, k))
  }

  /** The entries of a directory. */
  ghost function All(c: seq<byte>): multiset<Dir.Entry>
    requires IsDir(c)
  {
    Sum(Lists(c))
  }

  lemma SpliceBlocks(c: seq<byte>, k: nat, b: Sector)
    requires IsDir(c) && 4096 * k + 4096 <= |c|
    ensures var d := Splice(c, 4096 * k, b);
            && |d| == |c| && Blk(d, k) == b && forall j: nat | 4096 * j + 4096 <= |c| && j != k :: Blk(d, j) == Blk(c, j)
  {
    var d := Splice(c, 4096 * k, b);
    forall j: nat | 4096 * j + 4096 <= |c| && j != k ensures Blk(d, j) == Blk(c, j) {
      if j < k { assert 4096 * j + 4096 <= 4096 * k; } else { assert 4096 * k + 4096 <= 4096 * j; }
    }
  }

  lemma ListsChange(c: seq<byte>, k: nat, b: Sector)
    requires IsDir(c) && 4096 * k + 4096 <= |c| && Dir.Tiles(b, 0)
    ensures var d := Splice(c, 4096 * k, b); IsDir(d) && Lists(d) == Lists(c)[k := Dir.Entries(b, 0)]
  {
    var d := Splice(c, 4096 * k, b);
    SpliceBlocks(c, k, b);
    forall j: nat | 4096 * j + 4096 <= |d| ensures Dir.Tiles(Blk(d, j), 0) { assert j == k || Blk(d, j) == Blk(c, j); }
    forall j: nat | j < |Lists(d)| ensures Lists(d)[j] == Lists(c)[k := Dir.Entries(b, 0)][j] {
      assert j == k || Blk(d, j) == Blk(c, j);
    }
  }

  /** Rewriting block k changes the directory as it changes the block. */
  lemma Rewritten(c: seq<byte>, k: nat, b: Sector, e: Dir.Entry)
    requires IsDir(c) && 4096 * k + 4096 <= |c| && Dir.Tiles(b, 0)
    ensures IsDir(Splice(c, 4096 * k, b))
    ensures Dir.Entries(b, 0) == Dir.Entries(Blk(c, k), 0) + multiset{e} ==> All(Splice(c, 4096 * k, b)) == All(c) + multiset{e}
    ensures e in Dir.Entries(Blk(c, k), 0) && Dir.Entries(b, 0) == Dir.Entries(Blk(c, k), 0) - multiset{e}
            ==> e in All(c) && All(Splice(c, 4096 * k, b)) == All(c) - multiset{e}
  {
    ListsChange(c, k, b);
    SumUpdate(Lists(c), k, Dir.Entries(b, 0));
    assert Lists(c)[k] == Dir.Entries(Blk(c, k), 0);
    Exchange(All(c), Lists(c)[k], e);
  }

  lemma Exchange(m: multiset<Dir.Entry>, n: multiset<Dir.Entry>, e: Dir.Entry)
    requires n <= m
    ensures m - n + (n + multiset{e}) == m + multiset{e}
    ensures e in n ==> m - n + (n - multiset{e}) == m - multiset{e}
  {}

  lemma SumAppend(ms: seq<multiset<Dir.Entry>>, m: multiset<Dir.Entry>)
    ensures Sum(ms + [m]) == Sum(ms) + m
  {
    assert (ms + [m])[..|ms|] == ms;
  }

  lemma BlocksExtend(c: seq<byte>, b: Sector, d: seq<byte>)
    requires IsDir(c) && d == c + b && Dir.Tiles(b, 0)
    ensures IsDir(d) && |d| / 4096 == |c| / 4096 + 1 && Blk(d, |c| / 4096) == b
    ensures forall k: nat | k < |c| / 4096 :: Blk(d, k) == Blk(c, k)
  {
    assert Blk(d, |c| / 4096) == b;
    forall k: nat | 4096 * k + 4096 <= |d| ensures Dir.Tiles(Blk(d, k), 0) {
      if k < |c| / 4096 { assert Blk(d, k) == Blk(c, k); }
    }
  }

  lemma Extended(c: seq<byte>, b: Sector, m: multiset<Dir.Entry>)
    requires IsDir(c) && Dir.Tiles(b, 0) && m == Dir.Entries(b, 0)
    ensures IsDir(Splice(c, |c|, b)) && All(Splice(c, |c|, b)) == All(c) + m
  {
    var d := Splice(c, |c|, b);
    assert d == c + b;
    BlocksExtend(c, b, d);
    forall k: nat | k < |c| / 4096 ensures Lists(d)[k] == Lists(c)[k] { assert Blk(d, k) == Blk(c, k); }
    assert Lists(d) == Lists(c) + [m];
    SumAppend(Lists(c), m);
  }

  // ---------- names ----------

  lemma {:induction false} SumMember(ms: seq<multiset<Dir.Entry>>, k: nat, e: Dir.Entry)
    requires k < |ms| && e in ms[k]
    ensures e in Sum(ms)
  {
    if k < |ms| - 1 { SumMember(ms[..|ms| - 1], k, e); }
  }

  /** None of the first n blocks lists the name. */
  ghost predicate Absent(ms: seq<multiset<Dir.Entry>>, n: nat, name: seq<byte>)
  {
    forall k: nat | k < n && k < |ms| :: !Dir.Named(ms[k], name)
  }

  lemma AbsentNext(ms: seq<multiset<Dir.Entry>>, n: nat, name: seq<byte>)
    requires n < |ms|
    ensures Absent(ms, n, name) && !Dir.Named(ms[n], name) ==> Absent(ms, n + 1, name)
  {}

  lemma {:induction false} SumUnnamed(ms: seq<multiset<Dir.Entry>>, name: seq<byte>)
    requires Absent(ms, |ms|, name)
    ensures !Dir.Named(Sum(ms), name)
  {
    if ms != [] {
      var n := |ms| - 1;
      forall k: nat | k < n ensures !Dir.Named(ms[..n][k], name) { assert ms[..n][k] == ms[k]; }
      SumUnnamed(ms[..n], name);
      assert !Dir.Named(ms[n], name);
    }
  }

  /** A name has at most one entry. */
  ghost predicate Functional(m: multiset<Dir.Entry>)
  {
    forall e, f | e in m && f in m && e.name == f.name :: e == f && m[e] == 1
  }

  /** Adding an absent name and removing a name keep the directory a finite map. */
  lemma StillFunctional(m: multiset<Dir.Entry>, e: Dir.Entry)
    requires Functional(m)
    ensures !Dir.Named(m, e.name) ==> Functional(m + multiset{e})
    ensures Functional(m - multiset{e}) && (e in m ==> !Dir.Named(m - multiset{e}, e.name))
  {
    var p := m + multiset{e};
    if !Dir.Named(m, e.name) {
      forall f, g | f in p && g in p && f.name == g.name ensures f == g && p[f] == 1 {
        if f.name != e.name { assert f in m && g in m && p[f] == m[f]; }
      }
    }
    var q := m - multiset{e};
    forall f, g | f in q && g in q && f.name == g.name ensures f == g && q[f] == 1 { assert f in m && g in m; }
  }

  /** The disk block of a directory block. */
  lemma DiskBlock(v: Vol, i: nat, k: nat)
    requires Sound(v) && i in v.inodes && 4096 * k + 4096 <= v.inodes[i].size
    ensures k < SLOTS && R(v, i, k) != 0 && R(v, i, k) < |v.disk| && v.disk[R(v, i, k)] == Blk(Contents(v, i), k)
  {
    InRange(v, i, k);
    var c := Contents(v, i);
    forall p: nat | p < 4096 ensures Blk(c, k)[p] == v.disk[R(v, i, k)][p] {
      assert Blk(c, k)[p] == c[4096 * k + p] == ByteAt(v, i, 4096 * k + p);
      assert (4096 * k + p) / 4096 == k && (4096 * k + p) % 4096 == p;
    }
  }

  // ---------- operations ----------

  /** ffs_file_block without allocation and ffs_read_blk: block k of the directory. */
  method ReadBlock(vol: Volume, ctx: Context, k: nat, ghost v: Vol) returns (b: nat, blk: Sector)
    requires Sound(v) && v == vol.With(ctx, ctx.inode.size) && 4096 * k + 4096 <= ctx.inode.size
    ensures b == R(v, ctx.ino, k) && 0 < b < |vol.disk| && k < SLOTS && blk == Blk(Contents(v, ctx.ino), k) == vol.disk[b]
  {
    DiskBlock(v, ctx.ino, k);
    b := vol.Lookup(ctx, k, ctx.inode.size);
    blk := vol.disk[b];
  }

  /** One block of ffs_dir_lookup; end is where its loop over the records stops. */
  method SearchBlock(blk: Sector, name: seq<byte>) returns (ino: nat, end: nat, ghost e: Dir.Entry)
    requires Dir.Tiles(blk, 0)
    ensures ino == 0 ==> end == 4096
    ensures ino == 0 <==> !Dir.Named(Dir.Entries(blk, 0), name)
    ensures ino != 0 ==> e in Dir.Entries(blk, 0) && e.name == name && e.ino == ino
  {
    end := Dir.Find(blk, name);
    if end == 4096 { return 0, end, Dir.Entry([], 0, 0); }
    ino := Dir.Ino(blk, end);
    e := Dir.Entry(name, ino, blk[end + 7]);
    Dir.MatchThis(blk, end, name);
  }

  lemma BlockOf(pos: nat, k: nat, n: nat)
    requires pos == 4096 * k <= n && n % 4096 == 0
    ensures pos / 4096 == k && (pos < n ==> pos + 4096 <= n && k < n / 4096) && (pos == n ==> k == n / 4096)
  {}

  /** Block k of the directory is searched. */
  method SearchAt(vol: Volume, ctx: Context, k: nat, name: seq<byte>, ghost v: Vol, ghost c: seq<byte>) returns (ino: nat, end: nat, ghost e: Dir.Entry)
    requires Sound(v) && v == vol.With(ctx, ctx.inode.size) && c == Contents(v, ctx.ino) && IsDir(c) && 4096 * k + 4096 <= |c|
    ensures ino == 0 ==> end == 4096
    ensures ino == 0 <==> !Dir.Named(Lists(c)[k], name)
    ensures ino != 0 ==> e in Lists(c)[k] && e.name == name && e.ino == ino
  {
    var b, blk := ReadBlock(vol, ctx, k, v);
    ino, end, e := SearchBlock(blk, name);
  }

  /** The search over all blocks of a directory with contents c. */
  method Search(vol: Volume, ctx: Context, name: seq<byte>, ghost v: Vol, ghost c: seq<byte>) returns (ino: nat, ghost e: Dir.Entry)
    requires Sound(v) && v == vol.With(ctx, ctx.inode.size) && c == Contents(v, ctx.ino) && IsDir(c)
    ensures ino == 0 <==> !Dir.Named(All(c), name)
    ensures ino != 0 ==> e in All(c) && e.name == name && e.ino == ino
  {
    var pos := 0;
    ghost var k := 0;
    while pos < ctx.inode.size
      invariant pos == 4096 * k <= |c| && k <= |Lists(c)| && Absent(Lists(c), k, name)
    {
      BlockOf(pos, k, |c|);
      var off, end := pos % 4096, 0;
      ino, end, e := SearchAt(vol, ctx, pos / 4096, name, v, c);
      if ino != 0 {
        SumMember(Lists(c), k, e);
        return;
      }
      AbsentNext(Lists(c), k, name);
      pos := pos + (end - off);
      if end == pos % 4096 { assert false; }
      k := k + 1;
    }
    BlockOf(pos, k, |c|);
    SumUnnamed(Lists(c), name);
    ino, e := 0, Dir.Entry([], 0, 0);
  }

  /** ffs_dir_lookup: the inode the name has, 0 exactly if the directory does not hold it. */
  method Lookup(vol: Volume, ctx: Context, name: seq<byte>) returns (ino: nat, ghost e: Dir.Entry)
    requires ctx.ino in vol.inodes && vol.inodes[ctx.ino] == ctx.inode && Sound(vol.Now()) && IsDir(Contents(vol.Now(), ctx.ino))
    ensures ino == 0 <==> !Dir.Named(All(Contents(vol.Now(), ctx.ino)), name)
    ensures ino != 0 ==> e in All(Contents(vol.Now(), ctx.ino)) && e.name == name && e.ino == ino
  {
    ghost var v := vol.Now();
    assert vol.With(ctx, ctx.inode.size) == v by { assert vol.inodes[ctx.ino := ctx.inode.(size := ctx.inode.size)] == vol.inodes; }
    ino, e := Search(vol, ctx, name, v, Contents(v, ctx.ino));
  }

  /** w is v with the directory i holding the entries m. */
  ghost predicate Relisted(v: Vol, w: Vol, i: nat, m: multiset<Dir.Entry>)
  {
    && Sound(w) && SameOthers(v, w, i) && i in v.inodes && IsDir(Contents(w, i)) && All(Contents(w, i)) == m
  }

  /** From v to w no block is taken and none is given back; kept folded. */
  ghost predicate Settled(v: Vol, w: Vol, i: nat, total: nat, free: nat)
  {
    forall n: nat {:trigger Folded(n)} | Folded(n) :: Takes(v, w, i, {}, true) && Pays(v, w, i, total, free, free)
  }

  lemma SettledIs(v: Vol, w: Vol, i: nat, total: nat, free: nat)
    ensures Settled(v, w, i, total, free) <==> Takes(v, w, i, {}, true) && Pays(v, w, i, total, free, free)
  {
    assert Folded(0);
  }

  lemma SettledInside(v: Vol, w: Vol, i: nat, total: nat, free: nat)
    ensures Settled(v, w, i, total, free) && AllInside(v, total) ==> AllInside(w, total)
  {
    SettledIs(v, w, i, total, free);
    assert TakesKey(0) && PaysKey(0);
    if Settled(v, w, i, total, free) && AllInside(v, total) { assert Keys(w, i) - Keys(v, i) == {}; }
  }

  /** ffs_write_blk of block k of a directory. */
  method Rewrite(vol: Volume, ctx: Context, k: nat, b: nat, blk: Sector, ghost v: Vol)
    requires Sound(v) && v == vol.With(ctx, ctx.inode.size) && 4096 * k + 4096 <= ctx.inode.size
    requires k < SLOTS && b == R(v, ctx.ino, k) && 0 < b < |vol.disk|
    modifies vol`disk
    ensures var w := vol.With(ctx, ctx.inode.size);
            Sound(w) && SameOthers(v, w, ctx.ino) && Contents(w, ctx.ino) == Splice(Contents(v, ctx.ino), 4096 * k, blk)
    ensures Settled(v, vol.With(ctx, ctx.inode.size), ctx.ino, vol.total, vol.freeBlocks)
  {
    vol.disk := vol.disk[b := blk];
    WholeBlock(4096 * k, k);
    assert Overlay(v.disk[b], 0, blk) == blk;
    assert vol.With(ctx, ctx.inode.size).inodes == v.inodes[ctx.ino := v.inodes[ctx.ino].(size := ctx.inode.size)];
    StoreEffect(v, vol.With(ctx, ctx.inode.size), ctx.ino, 4096 * k, blk);
    StoreSettles(v, vol.With(ctx, ctx.inode.size), ctx.ino, 4096 * k, blk, vol.total, vol.freeBlocks);
  }

  lemma StoreSettles(v: Vol, u: Vol, i: nat, pos: nat, blk: Sector, total: nat, free: nat)
    requires Sound(v) && Writes(v, u, i, pos, blk)
    ensures Settled(v, u, i, total, free)
  {
    WriteSound(v, u, i, pos, blk);
    SameTakes(v, u, i, {}, true, total, free);
  }

  lemma WholeBlock(pos: nat, k: nat)
    requires pos == 4096 * k
    ensures pos / 4096 == k && pos % 4096 == 0
  {}

  /** One block of ffs_dir_remove. */
  method RemoveAt(vol: Volume, ctx: Context, k: nat, name: seq<byte>, ghost v: Vol, ghost c: seq<byte>) returns (ok: bool, ghost e: Dir.Entry)
    requires Sound(v) && v == vol.With(ctx, ctx.inode.size) && c == Contents(v, ctx.ino) && IsDir(c) && 4096 * k + 4096 <= |c|
    modifies vol`disk
    ensures ok <==> Dir.Named(Lists(c)[k], name)
    ensures ok ==> e.name == name && e in All(c) && Relisted(v, vol.With(ctx, ctx.inode.size), ctx.ino, All(c) - multiset{e})
    ensures ok ==> Settled(v, vol.With(ctx, ctx.inode.size), ctx.ino, vol.total, vol.freeBlocks)
    ensures !ok ==> vol.disk == old(vol.disk)
  {
    var b, blk := ReadBlock(vol, ctx, k, v);
    var now;
    ok, now, e := Dir.Remove(blk, name);
    if ok {
      Rewrite(vol, ctx, k, b, now, v);
      Rewritten(c, k, now, e);
    }
  }

  /** ffs_dir_remove: the name goes, and nothing else; false exactly if the directory does not hold it. */
  method Remove(vol: Volume, ctx: Context, name: seq<byte>) returns (ok: bool, ghost e: Dir.Entry)
    requires ctx.ino in vol.inodes && vol.inodes[ctx.ino] == ctx.inode && Sound(vol.Now()) && IsDir(Contents(vol.Now(), ctx.ino))
    modifies vol`disk
    ensures ok <==> Dir.Named(old(All(Contents(vol.Now(), ctx.ino))), name)
    ensures ok ==> e.name == name && e in old(All(Contents(vol.Now(), ctx.ino)))
    ensures ok ==> Relisted(old(vol.Now()), vol.Now(), ctx.ino, old(All(Contents(vol.Now(), ctx.ino))) - multiset{e})
    ensures AllInside(old(vol.Now()), vol.total) ==> AllInside(vol.Now(), vol.total)
    ensures !ok ==> vol.disk == old(vol.disk)
  {
    ghost var v := vol.Now();
    ghost var c := Contents(v, ctx.ino);
    assert vol.inodes[ctx.ino := ctx.inode.(size := ctx.inode.size)] == vol.inodes;
    var pos, k := 0, 0;
    while pos < ctx.inode.size
      invariant pos == 4096 * k <= |c| && k <= |Lists(c)| && Absent(Lists(c), k, name) && vol.disk == old(vol.disk)
    {
      BlockOf(pos, k, |c|);
      ok, e := RemoveAt(vol, ctx, k, name, v, c);
      if ok {
        SumNamed(Lists(c), k, name);
        SettledInside(v, vol.Now(), ctx.ino, vol.total, vol.freeBlocks);
        return;
      }
      AbsentNext(Lists(c), k, name);
      pos, k := pos + 4096, k + 1;
    }
    BlockOf(pos, k, |c|);
    SumUnnamed(Lists(c), name);
    ok, e := false, Dir.Entry([], 0, 0);
  }

  lemma SumNamed(ms: seq<multiset<Dir.Entry>>, k: nat, name: seq<byte>)
    requires k < |ms| && Dir.Named(ms[k], name)
    ensures Dir.Named(Sum(ms), name)
  {
    var e :| e in ms[k] && e.name == name;
    SumMember(ms, k, e);
  }

  /** None of the first k blocks of the directory can take an entry that needs n bytes. */
  ghost predicate NoRoom(c: seq<byte>, k: nat, n: nat)
    requires IsDir(c)
  {
    forall m: nat {:trigger Folded(m)} | Folded(m) ::
      forall j: nat {:trigger Blk(c, j)} | j < k && 4096 * j + 4096 <= |c| :: !Dir.Room(Blk(c, j), 0, n)
  }

  lemma NoRoomNext(c: seq<byte>, k: nat, n: nat)
    requires IsDir(c) && 4096 * k + 4096 <= |c| && !Dir.Room(Blk(c, k), 0, n)
    ensures NoRoom(c, k, n) ==> NoRoom(c, k + 1, n)
  {
    assert Folded(0);
  }

  lemma HasRoom(c: seq<byte>, k: nat, n: nat)
    requires IsDir(c) && 4096 * k + 4096 <= |c| && Dir.Room(Blk(c, k), 0, n)
    ensures !NoRoom(c, |c| / 4096, n)
  {
    assert Folded(0);
  }

  lemma NoRoomNone(c: seq<byte>, n: nat)
    requires IsDir(c)
    ensures NoRoom(c, 0, n)
  {}

  /** One block of ffs_dir_add. */
  method AddAt(vol: Volume, ctx: Context, k: nat, e: Dir.Entry, ghost v: Vol, ghost c: seq<byte>) returns (ok: bool)
    requires Sound(v) && v == vol.With(ctx, ctx.inode.size) && c == Contents(v, ctx.ino) && IsDir(c) && 4096 * k + 4096 <= |c|
    requires |e.name| <= 255 && 0 < e.ino < 0x1_0000_0000
    modifies vol`disk
    ensures !ok && NoRoom(c, k, Dir.Need(|e.name|)) ==> NoRoom(c, k + 1, Dir.Need(|e.name|))
    ensures ok ==> !NoRoom(c, |c| / 4096, Dir.Need(|e.name|))
    ensures ok ==> Relisted(v, vol.With(ctx, ctx.inode.size), ctx.ino, All(c) + multiset{e})
    ensures ok ==> Settled(v, vol.With(ctx, ctx.inode.size), ctx.ino, vol.total, vol.freeBlocks)
    ensures !ok ==> vol.disk == old(vol.disk)
  {
    var b, blk := ReadBlock(vol, ctx, k, v);
    var now;
    ok, now := Dir.Add(blk, e);
    if ok {
      HasRoom(c, k, Dir.Need(|e.name|));
      Rewrite(vol, ctx, k, b, now, v);
      Rewritten(c, k, now, e);
    } else {
      NoRoomNext(c, k, Dir.Need(|e.name|));
    }
  }

  lemma FreshBlock(e: Dir.Entry, b: Sector)
    requires |e.name| <= 255 && 0 < e.ino < 0x1_0000_0000 && b == Dir.PutRec(ZERO, 0, 4096, e)
    ensures Dir.Tiles(b, 0) && Dir.Entries(b, 0) == multiset{e}
  {
    Dir.PutIs(ZERO, 0, 4096, e);
    assert Dir.Tiles(b, 4096);
  }

  /** The end of ffs_dir_add: a new block for the directory, with one record. */
  method AddBlock(vol: Volume, ctx: Context, e: Dir.Entry, ghost v: Vol, ghost c: seq<byte>) returns (ok: bool)
    requires vol.Laid() && ctx.ino in vol.inodes && Sound(v) && v == vol.With(ctx, ctx.inode.size) && c == Contents(v, ctx.ino) && IsDir(c)
    requires |e.name| <= 255 && 0 < e.ino < 0x1_0000_0000
    modifies vol`disk, vol`freeBlocks, vol.bmap, ctx`inode
    ensures ok ==> Relisted(v, vol.With(ctx, ctx.inode.size), ctx.ino, All(c) + multiset{e}) && |c| / 4096 < SLOTS
    ensures !ok ==> Keeps(v, vol.With(ctx, ctx.inode.size)) && (|c| / 4096 >= SLOTS || vol.FullMap())
    ensures if ok then Takes(v, vol.With(ctx, ctx.inode.size), ctx.ino, Path(|c| / 4096), true) else Takes(v, vol.With(ctx, ctx.inode.size), ctx.ino, Path(|c| / 4096), false)
    ensures old(vol.Counted()) ==> vol.Counted() && Pays(v, vol.With(ctx, ctx.inode.size), ctx.ino, vol.total, old(vol.freeBlocks), vol.freeBlocks)
  {
    var size := ctx.inode.size;
    BlockOf(size, size / 4096, size);
    var b := vol.FileBlock(ctx, size / 4096, size);
    ghost var w := vol.With(ctx, size);
    KeepsWhole(v, w);
    if b == 0 { return false; }
    AppendBlock(vol, ctx, b, Dir.PutRec(ZERO, 0, 4096, e), e, v, w);
    SettledIs(w, vol.With(ctx, ctx.inode.size), ctx.ino, vol.total, vol.freeBlocks);
    TakesTwice(v, w, vol.With(ctx, ctx.inode.size), ctx.ino, Path(size / 4096), {}, Path(size / 4096), true);
    PaysTwice(v, w, vol.With(ctx, ctx.inode.size), ctx.ino, vol.total, old(vol.freeBlocks), vol.freeBlocks, vol.freeBlocks);
    ok := true;
  }

  /** Writes the block just allocated and makes the directory longer by it. */
  method AppendBlock(vol: Volume, ctx: Context, b: nat, blk: Sector, ghost e: Dir.Entry, ghost v: Vol, ghost w: Vol)
    requires w == vol.With(ctx, ctx.inode.size) && Whole(w) && Keeps(v, w) && ctx.ino in v.inodes && IsDir(Contents(v, ctx.ino))
    requires |e.name| <= 255 && 0 < e.ino < 0x1_0000_0000 && blk == Dir.PutRec(ZERO, 0, 4096, e)
    requires ctx.inode.size / 4096 < SLOTS && b == R(w, ctx.ino, ctx.inode.size / 4096) && b != 0
    modifies vol`disk, ctx`inode
    ensures Relisted(v, vol.With(ctx, ctx.inode.size), ctx.ino, All(Contents(v, ctx.ino)) + multiset{e})
    ensures Settled(w, vol.With(ctx, ctx.inode.size), ctx.ino, vol.total, vol.freeBlocks)
  {
    assert b < |vol.disk| by {
      assert WholeKey(0);
      InRange(w, ctx.ino, ctx.inode.size / 4096);
    }
    vol.disk := vol.disk[b := blk];
    ctx.inode := ctx.inode.(size := ctx.inode.size + 4096);
    Appended(v, w, vol.With(ctx, ctx.inode.size), ctx.ino, b, blk, e, vol.total, vol.freeBlocks);
  }

  lemma Appended(v: Vol, w: Vol, u: Vol, i: nat, b: nat, blk: Sector, e: Dir.Entry, total: nat, free: nat)
    requires Whole(w) && Keeps(v, w) && i in v.inodes && i in w.inodes && IsDir(Contents(v, i)) && |e.name| <= 255 && 0 < e.ino < 0x1_0000_0000
    requires blk == Dir.PutRec(ZERO, 0, 4096, e)
    requires var n := w.inodes[i];
             && n.size / 4096 < SLOTS && b == R(w, i, n.size / 4096) && 0 < b < |w.disk|
             && u == w.(disk := w.disk[b := blk], inodes := w.inodes[i := n.(size := n.size + 4096)])
    ensures Relisted(v, u, i, All(Contents(v, i)) + multiset{e}) && Settled(w, u, i, total, free)
  {
    assert WholeKey(0);
    assert Contents(w, i) == Contents(v, i);
    var size := w.inodes[i].size;
    assert size % 4096 == 0;
    assert Overlay(w.disk[b], 0, blk) == blk;
    StoreEffect(w, u, i, size, blk);
    StoreSettles(w, u, i, size, blk, total, free);
    FreshBlock(e, blk);
    Extended(Contents(v, i), blk, multiset{e});
  }

  /** The first loop of ffs_dir_add: the first block with room takes the entry. */
  method AddInPlace(vol: Volume, ctx: Context, e: Dir.Entry, ghost v: Vol, ghost c: seq<byte>) returns (ok: bool)
    requires Sound(v) && v == vol.With(ctx, ctx.inode.size) && c == Contents(v, ctx.ino) && IsDir(c)
    requires |e.name| <= 255 && 0 < e.ino < 0x1_0000_0000
    modifies vol`disk
    ensures ok ==> Relisted(v, vol.With(ctx, ctx.inode.size), ctx.ino, All(c) + multiset{e})
    ensures ok ==> Settled(v, vol.With(ctx, ctx.inode.size), ctx.ino, vol.total, vol.freeBlocks)
    ensures !ok ==> vol.disk == old(vol.disk)
    ensures !ok <==> NoRoom(c, |c| / 4096, Dir.Need(|e.name|))
  {
    var pos, k := 0, 0;
    NoRoomNone(c, Dir.Need(|e.name|));
    while pos < ctx.inode.size
      invariant pos == 4096 * k <= |c| && vol.disk == old(vol.disk) && NoRoom(c, k, Dir.Need(|e.name|))
    {
      BlockOf(pos, k, |c|);
      ok := AddAt(vol, ctx, k, e, v, c);
      if ok { return; }
      pos, k := pos + 4096, k + 1;
    }
    BlockOf(pos, k, |c|);
    ok := false;
  }

  /** The blocks a directory with contents c needs for an entry of n bytes, when it has those of the slots held. */
  ghost function Wanted(c: seq<byte>, n: nat, held: set<nat>): nat
    requires IsDir(c)
  {
    if NoRoom(c, |c| / 4096, n) then |Path(|c| / 4096) - held| else 0
  }

  /** A block has room, or the directory may be longer and the blocks it lacks are free. */
  ghost predicate EntryFits(c: seq<byte>, n: nat, held: set<nat>, free: nat)
    requires IsDir(c)
  {
    (NoRoom(c, |c| / 4096, n) ==> |c| / 4096 < SLOTS) && Wanted(c, n, held) <= free
  }

  /** ffs_dir_add and, if it succeeds, the caller's ffs_write_inode: one entry more, and nothing else changes. It fails only
      if no block has room and no further block can be had. It succeeds within the partition exactly if EntryFits. */
  method Add(vol: Volume, ctx: Context, e: Dir.Entry) returns (ok: bool)
    requires vol.Laid() && ctx.ino in vol.inodes && vol.inodes[ctx.ino] == ctx.inode && Sound(vol.Now())
    requires IsDir(Contents(vol.Now(), ctx.ino)) && |e.name| <= 255 && 0 < e.ino < 0x1_0000_0000
    modifies vol`disk, vol`freeBlocks, vol`inodes, vol.bmap, ctx`inode
    ensures ok ==> Relisted(old(vol.Now()), vol.Now(), ctx.ino, old(All(Contents(vol.Now(), ctx.ino))) + multiset{e})
    ensures !ok ==> Kept(old(vol.Now()), vol.With(ctx, ctx.inode.size)) && vol.inodes == old(vol.inodes)
    ensures !ok ==> NoRoom(old(Contents(vol.Now(), ctx.ino)), |old(Contents(vol.Now(), ctx.ino))| / 4096, Dir.Need(|e.name|))
    ensures !ok ==> |old(Contents(vol.Now(), ctx.ino))| / 4096 >= SLOTS || vol.FullMap()
    ensures old(vol.Counted()) ==> vol.Counted()
    ensures ok && old(vol.Counted()) ==> Pays(old(vol.Now()), vol.Now(), ctx.ino, vol.total, old(vol.freeBlocks), vol.freeBlocks)
    ensures old(vol.Counted()) && AllInside(old(vol.Now()), vol.total) ==>
              (ok && AllInside(vol.Now(), vol.total) <==>
                 EntryFits(old(Contents(vol.Now(), ctx.ino)), Dir.Need(|e.name|), old(Keys(vol.Now(), ctx.ino)), old(vol.freeBlocks)))
  {
    ghost var v := vol.Now();
    ghost var c := Contents(v, ctx.ino);
    assert vol.inodes[ctx.ino := ctx.inode.(size := ctx.inode.size)] == vol.inodes;
    ok := AddInPlace(vol, ctx, e, v, c);
    if ok {
      SettledInside(v, vol.Now(), ctx.ino, vol.total, vol.freeBlocks);
      return;
    }
    ok := AddBlock(vol, ctx, e, v, c);
    ghost var w := vol.With(ctx, ctx.inode.size);
    KeepsIs(v, w);
    AddFits(v, w, ctx.ino, Path(|c| / 4096), ok, vol.total, old(vol.freeBlocks), vol.freeBlocks);
    if ok { vol.inodes := vol.inodes[ctx.ino := ctx.inode]; }
  }

  lemma AddFits(v: Vol, w: Vol, i: nat, slots: set<nat>, ok: bool, total: nat, free: nat, left: nat)
    requires Sound(w) && w.start < total <= 8 * |w.bmap| && (ok || slots == {} || NoClear(w.bmap))
    requires if ok then Takes(v, w, i, slots, true) else Takes(v, w, i, slots, false)
    ensures Pays(v, w, i, total, free, left) && AllInside(v, total) ==>
              (ok && AllInside(w, total) <==> (ok || slots != {}) && |slots - Keys(v, i)| <= free)
  {
    if Pays(v, w, i, total, free, left) && AllInside(v, total) {
      if ok {
        EnoughIff(v, w, i, slots, total, free, left);
      } else if slots != {} {
        assert Folded(0);
        TooFew(v, w, i, slots, false, total, free, left);
      }
    }
  }
}
