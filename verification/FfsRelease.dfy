/** Giving the blocks of a file back (kernel/vfs/ffs.c), also those behind the partition. */
module FfsRelease {
  import opened Bits
  import opened Bitmap
  import opened FfsModel
  import opened FfsSpace

  /** w is v with inode i gone or empty; of its blocks, those with index below total are clear. */
  ghost predicate Trims(v: Vol, w: Vol, i: nat, total: nat)
  {
    && w.start == v.start && w.disk == v.disk && |w.bmap| == |v.bmap| && i in v.inodes
    && (w.inodes == v.inodes - {i} || w.inodes == v.inodes[i := EMPTY])
    && forall x: nat {:trigger Bit(w.bmap, x)} | x < 8 * |v.bmap| :: Bit(w.bmap, x) <==> Bit(v.bmap, x) && !(x < total && Uses(v, i, x))
  }

  lemma TrimmedRefs(v: Vol, w: Vol, i: nat, total: nat)
    requires Trims(v, w, i, total)
    ensures forall j: nat, t: nat {:trigger R(w, j, t)} {:trigger R(v, j, t)} :: R(w, j, t) == if j == i then 0 else R(v, j, t)
  {
    forall j: nat, t: nat ensures R(w, j, t) == if j == i then 0 else R(v, j, t) {}
  }

  /** The file is gone or empty, and the others read as before. */
  lemma TrimmedContents(v: Vol, w: Vol, i: nat, total: nat)
    requires Trims(v, w, i, total)
    ensures i in w.inodes ==> Contents(w, i) == [] && SameOthers(v, w, i)
    ensures forall j | j in v.inodes && j != i :: j in w.inodes && Contents(w, j) == Contents(v, j)
  {
    TrimmedRefs(v, w, i, total);
    forall j | j in v.inodes && j != i ensures j in w.inodes && Contents(w, j) == Contents(v, j) {
      forall k: nat | k < v.inodes[j].size ensures ByteAt(w, j, k) == ByteAt(v, j, k) {
        assert R(w, j, k / 4096) == R(v, j, k / 4096);
      }
    }
  }

  lemma TrimmedReleases(v: Vol, w: Vol, i: nat, total: nat)
    requires Sound(v) && Trims(v, w, i, total) && Inside(v, i, v.start + total)
    ensures Releases(v, w, i) && Sound(w)
  {
    forall x: nat | x < 8 * |v.bmap| ensures Bit(w.bmap, x) <==> Bit(v.bmap, x) && !Uses(v, i, x) {
      if Uses(v, i, x) { var s: nat :| R(v, i, s) == v.start + x; }
    }
    Released(v, w, i);
  }

  /** A block that far behind the partition stays marked, and nothing refers to it. */
  lemma TrimmedLeak(v: Vol, w: Vol, i: nat, total: nat, s: nat)
    requires Sound(v) && Trims(v, w, i, total) && R(v, i, s) >= v.start + total
    ensures !Sound(w)
  {
    TrimmedRefs(v, w, i, total);
    var x := R(v, i, s) - v.start;
    assert InUse(v, R(v, i, s));
    assert Bit(w.bmap, x) && !Refers(w, w.start + x);
  }

  /** Ownership stays exact exactly if no block of the file is total blocks or more behind the start of the data. */
  lemma TrimmedSound(v: Vol, w: Vol, i: nat, total: nat)
    requires Sound(v) && Trims(v, w, i, total)
    ensures Sound(w) <==> Inside(v, i, v.start + total)
  {
    if Inside(v, i, v.start + total) {
      TrimmedReleases(v, w, i, total);
    } else {
      var s: nat :| R(v, i, s) >= v.start + total;
      TrimmedLeak(v, w, i, total, s);
    }
  }

  lemma TrimmedInside(v: Vol, w: Vol, i: nat, total: nat)
    requires Trims(v, w, i, total) && total > 0
    ensures AllInside(v, total) ==> AllInside(w, total)
  {
    TrimmedRefs(v, w, i, total);
  }

  // ---------- block by block ----------

  ghost predicate UsesBelow(v: Vol, i: nat, n: nat, x: nat) { exists s: nat :: s < n && R(v, i, s) == v.start + x }

  /** The blocks of slots below n of inode i with index below total are free; the bitmap is otherwise that of v. */
  ghost predicate Drops(v: Vol, m: seq<byte>, i: nat, n: nat, total: nat)
  {
    && |m| == |v.bmap|
    && forall x: nat {:trigger Bit(m, x)} | x < 8 * |m| :: Bit(m, x) <==> Bit(v.bmap, x) && !(x < total && UsesBelow(v, i, n, x))
  }

  /** A block still to be freed is marked. */
  lemma DropStep(v: Vol, m: seq<byte>, i: nat, s: nat, total: nat)
    requires Sound(v) && Drops(v, m, i, s, total)
    ensures var b := R(v, i, s); b != 0 ==> v.start < b && b - v.start < 8 * |m| && Bit(m, b - v.start)
  {
    var b := R(v, i, s);
    if b != 0 {
      assert InUse(v, b);
      forall t: nat | t < s ensures R(v, i, t) != b {}
    }
  }

  lemma DropMarked(v: Vol, m: seq<byte>, now: seq<byte>, i: nat, s: nat, total: nat)
    requires Drops(v, m, i, s, total) && v.start > 0
    requires var b := R(v, i, s);
             if b == 0 || b - v.start >= total then now == m else v.start < b && b - v.start < 8 * |m| && Marked(m, now, {b - v.start}, false)
    ensures Drops(v, now, i, s + 1, total)
  {
    forall x: nat ensures UsesBelow(v, i, s + 1, x) <==> UsesBelow(v, i, s, x) || R(v, i, s) == v.start + x {
      if UsesBelow(v, i, s + 1, x) { var t: nat :| t < s + 1 && R(v, i, t) == v.start + x; }
      if UsesBelow(v, i, s, x) { var t: nat :| t < s && R(v, i, t) == v.start + x; }
    }
  }

  lemma NoPointers(v: Vol, m: seq<byte>, i: nat, total: nat)
    requires Sound(v) && i in v.inodes && v.inodes[i].indirect == 0 && Drops(v, m, i, DIRECT, total)
    ensures Drops(v, m, i, SLOTS + 1, total)
  {
    forall x: nat ensures UsesBelow(v, i, SLOTS + 1, x) <==> UsesBelow(v, i, DIRECT, x) {
      if UsesBelow(v, i, SLOTS + 1, x) {
        var t: nat :| t < SLOTS + 1 && R(v, i, t) == v.start + x;
        assert t < DIRECT;
      }
    }
  }

  lemma AllDropped(v: Vol, w: Vol, i: nat, total: nat)
    requires Sound(v) && Drops(v, w.bmap, i, SLOTS + 1, total) && w.start == v.start && w.disk == v.disk && i in v.inodes
    requires w.inodes == v.inodes - {i} || w.inodes == v.inodes[i := EMPTY]
    ensures Trims(v, w, i, total)
  {
    forall x: nat ensures UsesBelow(v, i, SLOTS + 1, x) <==> Uses(v, i, x) {
      if Uses(v, i, x) {
        var s: nat :| R(v, i, s) == v.start + x;
        assert s <= SLOTS;
      }
    }
  }

  // ---------- the counter ----------

  /** The slots below n of inode i whose block is behind the partition and yet freed. */
  ghost function Over(v: Vol, i: nat, n: nat, total: nat): nat
  {
    if n == 0 then 0 else Over(v, i, n - 1, total) + if total <= R(v, i, n - 1) < v.start + total then 1 else 0
  }

  lemma {:induction false} OverNone(v: Vol, i: nat, n: nat, total: nat)
    ensures Over(v, i, n, total) == 0 <==> forall s: nat {:trigger R(v, i, s)} | s < n :: !(total <= R(v, i, s) < v.start + total)
  {
    if n > 0 { OverNone(v, i, n - 1, total); }
  }

  lemma {:induction false} OverEmpty(v: Vol, i: nat, n: nat, total: nat)
    requires n >= DIRECT && total > 0 && forall s: nat {:trigger R(v, i, s)} | s >= DIRECT :: R(v, i, s) == 0
    ensures Over(v, i, n, total) == Over(v, i, DIRECT, total)
  {
    if n > DIRECT { OverEmpty(v, i, n - 1, total); }
  }

  /** Both ownership and the counter stay exact exactly if every block of the file is in the partition. */
  lemma ExactIff(v: Vol, i: nat, total: nat)
    ensures Inside(v, i, v.start + total) && Over(v, i, SLOTS + 1, total) == 0 && total > 0 <==> Inside(v, i, total) && total > 0
  {
    OverNone(v, i, SLOTS + 1, total);
    if Inside(v, i, v.start + total) && Over(v, i, SLOTS + 1, total) == 0 && total > 0 {
      forall s: nat ensures R(v, i, s) < total {
        if s > SLOTS { assert R(v, i, s) == 0; }
      }
    }
  }
}
