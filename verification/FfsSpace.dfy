/** Which blocks an operation of kernel/vfs/ffs.c takes, and whether they lie in the partition. */
module FfsSpace {
  import opened Bits
  import opened Bitmap
  import opened FfsModel

  /** All blocks of inode i lie in the partition. */
  ghost predicate Inside(v: Vol, i: nat, total: nat) { forall s: nat {:trigger R(v, i, s)} :: R(v, i, s) < total }

  /** All blocks of all files lie in the partition. */
  ghost predicate AllInside(v: Vol, total: nat) { forall i: nat, s: nat {:trigger R(v, i, s)} :: R(v, i, s) < total }

  /** The slots of inode i that have a block. */
  ghost function Keys(v: Vol, i: nat): set<nat> { set s: nat | s <= SLOTS && R(v, i, s) != 0 }

  /** w refers to the blocks of v, and slots of i that had none may have one. */
  ghost predicate Gained(v: Vol, w: Vol, i: nat)
  {
    forall j: nat, t: nat {:trigger R(w, j, t)} {:trigger R(v, j, t)} :: R(w, j, t) == R(v, j, t) || (j == i && R(v, j, t) == 0)
  }

  ghost predicate SameRefs(v: Vol, w: Vol)
  {
    forall j: nat, t: nat {:trigger R(w, j, t)} {:trigger R(v, j, t)} :: R(w, j, t) == R(v, j, t)
  }

  /** Keys that keep the two predicates below folded. */
  ghost predicate TakesKey(n: nat) { true }

  ghost predicate PaysKey(n: nat) { true }

  ghost predicate TakesNow(v: Vol, w: Vol, i: nat, slots: set<nat>, all: bool)
  {
    Gained(v, w, i) && Keys(w, i) <= Keys(v, i) + slots && (all ==> slots <= Keys(w, i))
  }

  /** From v to w, inode i got blocks for some of these slots, and for all of them if all is set; kept folded. */
  ghost predicate Takes(v: Vol, w: Vol, i: nat, slots: set<nat>, all: bool)
  {
    forall n: nat {:trigger TakesKey(n)} | TakesKey(n) :: TakesNow(v, w, i, slots, all)
  }

  ghost predicate PaysNow(v: Vol, w: Vol, i: nat, total: nat, free: nat, left: nat)
  {
    var n := |Keys(w, i) - Keys(v, i)|;
    Gained(v, w, i) && left == (if n <= free then free - n else 0) && (AllInside(v, total) ==> (AllInside(w, total) <==> n <= free))
  }

  /** With free blocks before and left after, the blocks taken from v to w lie in the partition exactly if there were as
      many; kept folded. */
  ghost predicate Pays(v: Vol, w: Vol, i: nat, total: nat, free: nat, left: nat)
  {
    forall n: nat {:trigger PaysKey(n)} | PaysKey(n) :: PaysNow(v, w, i, total, free, left)
  }

  // ---------- one step ----------

  lemma AttachKeys(v: Vol, w: Vol, i: nat, s: nat, x: nat)
    requires s <= SLOTS && v.start > 0
    ensures Attaches(v, w, i, s, x) ==> Gained(v, w, i) && Keys(w, i) == Keys(v, i) + {s} && Keys(w, i) - Keys(v, i) == {s}
  {
    if Attaches(v, w, i, s, x) {
      forall j: nat, t: nat ensures R(w, j, t) == R(v, j, t) || (j == i && R(v, j, t) == 0) {}
      assert R(w, i, s) == v.start + x;
    }
  }

  lemma AttachTakes(v: Vol, w: Vol, i: nat, s: nat, x: nat)
    requires s <= SLOTS && v.start > 0
    ensures Attaches(v, w, i, s, x) ==> Takes(v, w, i, {s}, true)
  {
    AttachKeys(v, w, i, s, x);
    assert TakesKey(0) && PaysKey(0);
  }

  lemma AttachInside(v: Vol, w: Vol, i: nat, s: nat, x: nat, total: nat)
    ensures Attaches(v, w, i, s, x) && AllInside(v, total) ==> (AllInside(w, total) <==> v.start + x < total)
  {
    if Attaches(v, w, i, s, x) { assert R(w, i, s) == v.start + x; }
  }

  lemma AttachPays(v: Vol, w: Vol, i: nat, s: nat, x: nat, total: nat, free: nat, left: nat)
    requires s <= SLOTS && v.start > 0 && (free > 0 <==> v.start + x < total) && left == if free > 0 then free - 1 else 0
    ensures Attaches(v, w, i, s, x) ==> Pays(v, w, i, total, free, left)
  {
    AttachKeys(v, w, i, s, x);
    AttachInside(v, w, i, s, x, total);
    assert |{s}| == 1;
    assert TakesKey(0) && PaysKey(0);
  }

  /** Where no reference changes, nothing is taken. */
  lemma SameTakes(v: Vol, w: Vol, i: nat, slots: set<nat>, all: bool, total: nat, free: nat)
    requires SameRefs(v, w) && (all ==> slots <= Keys(v, i))
    ensures Takes(v, w, i, slots, all) && Pays(v, w, i, total, free, free) && (AllInside(v, total) <==> AllInside(w, total))
  {
    assert Keys(w, i) == Keys(v, i);
    assert |Keys(w, i) - Keys(v, i)| == 0 by { assert Keys(w, i) - Keys(v, i) == {}; }
    assert AllInside(v, total) <==> AllInside(w, total) by {
      forall j: nat, t: nat ensures R(w, j, t) == R(v, j, t) {}
    }
    assert TakesKey(0) && PaysKey(0);
  }

  // ---------- two steps ----------

  lemma Between<T>(a: set<T>, b: set<T>, c: set<T>)
    requires a <= b <= c
    ensures |c - a| == |b - a| + |c - b|
  {
    assert c - a == (b - a) + (c - b) && (b - a) !! (c - b);
  }

  lemma GainedTwice(v: Vol, w: Vol, u: Vol, i: nat)
    requires Gained(v, w, i) && Gained(w, u, i)
    ensures Gained(v, u, i) && Keys(v, i) <= Keys(w, i) <= Keys(u, i)
  {
    forall j: nat, t: nat ensures R(u, j, t) == R(v, j, t) || (j == i && R(v, j, t) == 0) {
      assert R(w, j, t) == R(v, j, t) || (j == i && R(v, j, t) == 0);
    }
    forall t: nat | t in Keys(v, i) ensures t in Keys(w, i) { assert R(w, i, t) == R(v, i, t); }
    forall t: nat | t in Keys(w, i) ensures t in Keys(u, i) { assert R(u, i, t) == R(w, i, t); }
  }

  lemma TakesTwice(v: Vol, w: Vol, u: Vol, i: nat, s: set<nat>, t: set<nat>, sum: set<nat>, all: bool)
    requires sum == s + t
    ensures Takes(v, w, i, s, true) && Takes(w, u, i, t, all) ==> Takes(v, u, i, sum, all)
  {
    assert TakesKey(0) && PaysKey(0);
    if TakesNow(v, w, i, s, true) && TakesNow(w, u, i, t, all) { GainedTwice(v, w, u, i); }
  }

  lemma TakesFewer(v: Vol, w: Vol, i: nat, s: set<nat>, t: set<nat>, all: bool)
    requires s <= t
    ensures Takes(v, w, i, s, all) ==> Takes(v, w, i, t, false)
  {
    assert TakesKey(0) && PaysKey(0);
  }

  /** A block outside the partition stays where it is. */
  lemma StaysOutside(w: Vol, u: Vol, i: nat, total: nat)
    requires Gained(w, u, i) && AllInside(u, total)
    ensures total > 0 ==> AllInside(w, total)
  {
    forall j: nat, t: nat ensures total > 0 ==> R(w, j, t) < total { assert R(u, j, t) < total; }
  }

  lemma PaysTwice(v: Vol, w: Vol, u: Vol, i: nat, total: nat, free: nat, some: nat, left: nat)
    requires total > 0
    ensures Pays(v, w, i, total, free, some) && Pays(w, u, i, total, some, left) ==> Pays(v, u, i, total, free, left)
  {
    assert TakesKey(0) && PaysKey(0);
    if PaysNow(v, w, i, total, free, some) && PaysNow(w, u, i, total, some, left) {
      GainedTwice(v, w, u, i);
      Between(Keys(v, i), Keys(w, i), Keys(u, i));
      if AllInside(u, total) { StaysOutside(w, u, i, total); }
    }
  }

  // ---------- the slots of a write ----------

  /** The slots ffs_file_block goes through to block idx of a file. */
  ghost function Path(idx: nat): set<nat>
  {
    if idx < DIRECT then {idx} else if idx < SLOTS then {SLOTS, idx} else {}
  }

  /** The slots a write of n bytes at pos needs. */
  ghost function Touched(pos: nat, n: nat): set<nat>
  {
    if n == 0 then {}
    else (set s: nat | s < SLOTS && pos < 4096 * s + 4096 && 4096 * s < pos + n) + if pos + n > 4096 * DIRECT then {SLOTS} else {}
  }

  lemma TouchedNext(pos: nat, n: nat, chunk: nat)
    requires 0 < chunk && (pos + n) % 4096 + chunk <= 4096 && (pos + n) / 4096 < SLOTS
    ensures Touched(pos, n + chunk) == Touched(pos, n) + Path((pos + n) / 4096)
  {
    var idx := (pos + n) / 4096;
    forall s: nat ensures s in Touched(pos, n + chunk) <==> s in Touched(pos, n) || s in Path(idx) {}
  }

  lemma TouchedMore(pos: nat, n: nat, m: nat)
    requires n < m
    ensures Touched(pos, n) <= Touched(pos, m) && Path((pos + n) / 4096) <= Touched(pos, m)
  {}

  // ---------- when blocks run out ----------

  /** A volume whose files lie in the partition always has a clear bit for a block behind it. */
  lemma ClearBehind(v: Vol, total: nat)
    requires Sound(v) && v.start < total <= 8 * |v.bmap|
    ensures AllInside(v, total) ==> !Bit(v.bmap, total - v.start)
  {
    if Bit(v.bmap, total - v.start) {
      assert Refers(v, v.start + (total - v.start));
    }
  }

  lemma TookAll(v: Vol, w: Vol, i: nat, slots: set<nat>)
    requires Takes(v, w, i, slots, true)
    ensures Keys(w, i) == Keys(v, i) + slots
  {
    assert TakesKey(0) && PaysKey(0);
    GainedTwice(v, v, w, i);
  }

  /** An operation that got all the blocks it asked for got them from the partition exactly if there were enough. */
  lemma EnoughIff(v: Vol, w: Vol, i: nat, slots: set<nat>, total: nat, free: nat, left: nat)
    requires Takes(v, w, i, slots, true) && Pays(v, w, i, total, free, left) && AllInside(v, total)
    ensures AllInside(w, total) <==> |slots - Keys(v, i)| <= free
  {
    TookAll(v, w, i, slots);
    assert TakesKey(0) && PaysKey(0);
    assert Keys(w, i) - Keys(v, i) == slots - Keys(v, i);
  }

  lemma Subset<T>(a: set<T>, b: set<T>)
    requires a <= b
    ensures |a| <= |b|
  {
    assert b == a + (b - a);
  }

  /** One that did not, on a volume that is full behind the partition as well, asked for more than there were. */
  lemma TooFew(v: Vol, w: Vol, i: nat, slots: set<nat>, all: bool, total: nat, free: nat, left: nat)
    requires Takes(v, w, i, slots, all) && Pays(v, w, i, total, free, left) && AllInside(v, total)
    requires Sound(w) && w.start < total <= 8 * |w.bmap| && Bit(w.bmap, total - w.start)
    ensures |slots - Keys(v, i)| > free
  {
    assert TakesKey(0) && PaysKey(0);
    ClearBehind(w, total);
    Subset(Keys(w, i) - Keys(v, i), slots - Keys(v, i));
  }
}
