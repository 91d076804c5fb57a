/** Directory blocks of kernel/vfs/ffs.c: variable-length records on bytes, read as a collection of names. */
module FfsDir {
  import opened Bits
  import opened Bitmap
  import opened FfsModel

  datatype Entry = Entry(name: seq<byte>, ino: nat, kind: byte)

  // ---------- one record ----------

  function Ino(b: Sector, off: nat): nat
    requires off + 8 <= 4096
  {
    var b0: nat, b1: nat, b2: nat, b3: nat := b[off], b[off + 1], b[off + 2], b[off + 3];
    b0 + 0x100 * b1 + 0x1_0000 * b2 + 0x100_0000 * b3
  }

  function RecLen(b: Sector, off: nat): nat
    requires off + 8 <= 4096
  {
    var b4: nat, b5: nat := b[off + 4], b[off + 5];
    b4 + 0x100 * b5
  }

  function NameLen(b: Sector, off: nat): nat
    requires off + 8 <= 4096
  {
    b[off + 6]
  }

  /** dirent_len: the header and the name, rounded up to a multiple of four. */
  function Need(n: nat): nat { (8 + n + 3) / 4 * 4 }

  /** A record at off that ends inside the block and, if in use, has room for its name. */
  ghost predicate Record(b: Sector, off: nat)
  {
    && off + 8 <= 4096 && 8 <= RecLen(b, off) && off + RecLen(b, off) <= 4096 && RecLen(b, off) % 4 == 0
    && (Ino(b, off) != 0 ==> Need(NameLen(b, off)) <= RecLen(b, off))
  }

  /** The least multiple of four with room for header and name. */
  lemma NeedIs(n: nat, m: nat)
    ensures Need(n) % 4 == 0 && 8 + n <= Need(n) && (m % 4 == 0 && 8 + n <= m ==> Need(n) <= m)
  {}

  /** A record: the inode and the record length, little-endian, the length of the name, the kind and the name. */
  lemma RecordIs(b: Sector, off: nat)
    requires Record(b, off)
    ensures RecLen(b, off) == Decode(b[off + 4..off + 6]) && (Ino(b, off) == 0 <==> Decode(b[off..off + 4]) == 0)
    ensures Ino(b, off) != 0 ==>
              && off + 8 + b[off + 6] <= 4096
              && This(b, off) == multiset{Entry(b[off + 8..off + 8 + b[off + 6]], Decode(b[off..off + 4]), b[off + 7])}
  {
    FourBytes(b[off..off + 4]);
    var s := b[off + 4..off + 6];
    assert s[1..][1..] == [] && s[0] == b[off + 4] && s[1] == b[off + 5] && s[1..][0] == s[1];
    assert Decode(s[1..]) == s[1];
  }

  /** Records tile the block from off to its end. */
  ghost predicate Tiles(b: Sector, off: nat)
    decreases 4096 - off, b
  {
    off == 4096 || (off < 4096 && Record(b, off) && Tiles(b, off + RecLen(b, off)))
  }

  ghost function This(b: Sector, off: nat): multiset<Entry>
    requires Record(b, off)
  {
    if Ino(b, off) == 0 then multiset{}
    else multiset{Entry(b[off + 8..off + 8 + NameLen(b, off)], Ino(b, off), b[off + 7])}
  }

  /** What the records from off on say. */
  ghost function Entries(b: Sector, off: nat): multiset<Entry>
    requires Tiles(b, off)
    decreases 4096 - off, b
  {
    if off == 4096 then multiset{} else This(b, off) + Entries(b, off + RecLen(b, off))
  }

  // ---------- frames ----------

  ghost predicate Agree(b: Sector, c: Sector, lo: nat, hi: nat) { forall k | lo <= k < hi && k < 4096 :: b[k] == c[k] }

  lemma HeaderAgree(b: Sector, c: Sector, off: nat)
    requires off + 8 <= 4096 && Agree(b, c, off, off + 8)
    ensures Ino(b, off) == Ino(c, off) && RecLen(b, off) == RecLen(c, off) && NameLen(b, off) == NameLen(c, off)
  {}

  lemma RecordAgree(b: Sector, c: Sector, off: nat)
    requires Record(b, off) && Agree(b, c, off, off + RecLen(b, off))
    ensures Record(c, off) && RecLen(c, off) == RecLen(b, off) && This(c, off) == This(b, off)
  {
    HeaderAgree(b, c, off);
    var n := NameLen(b, off);
    if Ino(b, off) != 0 { assert b[off + 8..off + 8 + n] == c[off + 8..off + 8 + n]; }
  }

  lemma {:induction false} TailAgree(b: Sector, c: Sector, off: nat)
    requires Tiles(b, off) && Agree(b, c, off, 4096)
    ensures Tiles(c, off) && Entries(c, off) == Entries(b, off)
    decreases 4096 - off
  {
    if off < 4096 {
      RecordAgree(b, c, off);
      TailAgree(b, c, off + RecLen(b, off));
    }
  }

  /** Whole records lead from off to at. */
  ghost predicate Reach(b: Sector, off: nat, at: nat)
    decreases 4096 - off, b
  {
    off == at || (off < at <= 4096 && Record(b, off) && Reach(b, off + RecLen(b, off), at))
  }

  lemma {:induction false} ReachTiles(b: Sector, off: nat, at: nat)
    requires Tiles(b, off) && Reach(b, off, at)
    ensures Tiles(b, at) && off <= at <= 4096
    decreases 4096 - off
  {
    if off != at { ReachTiles(b, off + RecLen(b, off), at); }
  }

  lemma {:induction false} ReachNext(b: Sector, off: nat, at: nat)
    requires Tiles(b, off) && Reach(b, off, at) && at < 4096
    ensures Tiles(b, at) && Reach(b, off, at + RecLen(b, at))
    decreases 4096 - off
  {
    ReachTiles(b, off, at);
    if off != at { ReachNext(b, off + RecLen(b, off), at); }
  }

  lemma Regroup(t: multiset<Entry>, e: multiset<Entry>, x: multiset<Entry>, y: multiset<Entry>)
    requires x <= e
    ensures t + e - x + y == t + (e - x + y)
  {}

  /** Replacing the records from at on changes what they say and nothing else. */
  lemma {:induction false} Replaced(b: Sector, c: Sector, off: nat, at: nat)
    requires Tiles(b, off) && Reach(b, off, at) && Agree(b, c, off, at) && Tiles(c, at)
    ensures Tiles(b, at) && Tiles(c, off) && Entries(b, at) <= Entries(b, off)
    ensures Entries(c, off) == Entries(b, off) - Entries(b, at) + Entries(c, at)
    decreases 4096 - off
  {
    ReachTiles(b, off, at);
    if off != at {
      ReachTiles(b, off + RecLen(b, off), at);
      RecordAgree(b, c, off);
      Replaced(b, c, off + RecLen(b, off), at);
      Regroup(This(b, off), Entries(b, off + RecLen(b, off)), Entries(b, at), Entries(c, at));
    }
  }

  // ---------- writing records ----------

  function Header(ino: nat, len: nat, n: byte, kind: byte): (h: seq<byte>)
    requires ino < 0x1_0000_0000 && len < 0x1_0000
    ensures |h| == 8
  {
    [ino % 0x100, ino / 0x100 % 0x100, ino / 0x1_0000 % 0x100, ino / 0x100_0000, len % 0x100, len / 0x100, n, kind]
  }

  /** The block with a record written at off. */
  function PutRec(b: Sector, off: nat, len: nat, e: Entry): Sector
    requires off + 8 + |e.name| <= 4096 && |e.name| <= 255 && e.ino < 0x1_0000_0000 && len < 0x1_0000
  {
    b[..off] + Header(e.ino, len, |e.name|, e.kind) + e.name + b[off + 8 + |e.name|..]
  }

  lemma PutBytes(b: Sector, off: nat, len: nat, e: Entry)
    requires off + 8 + |e.name| <= 4096 && |e.name| <= 255 && e.ino < 0x1_0000_0000 && len < 0x1_0000
    ensures var c := PutRec(b, off, len, e);
            && Ino(c, off) == e.ino && RecLen(c, off) == len && NameLen(c, off) == |e.name| && c[off + 7] == e.kind
            && c[off + 8..off + 8 + |e.name|] == e.name && Agree(b, c, 0, off) && Agree(b, c, off + 8 + |e.name|, 4096)
  {
    WordDigits(e.ino);
    var c, h := PutRec(b, off, len, e), Header(e.ino, len, |e.name|, e.kind);
    assert forall i | 0 <= i < 8 :: c[off + i] == h[i];
    assert c[off + 0] == h[0] && c[off + 1] == h[1] && c[off + 2] == h[2] && c[off + 3] == h[3];
    assert c[off + 4] == h[4] && c[off + 5] == h[5];
  }

  /** A record at off of length len, which says t. */
  ghost predicate Says(c: Sector, off: nat, len: nat, t: multiset<Entry>) { Record(c, off) && RecLen(c, off) == len && This(c, off) == t }

  lemma PutIs(b: Sector, off: nat, len: nat, e: Entry)
    requires off + 8 + |e.name| <= 4096 && |e.name| <= 255 && 0 < e.ino < 0x1_0000_0000
    requires len % 4 == 0 && Need(|e.name|) <= len && off + len <= 4096
    ensures var c := PutRec(b, off, len, e);
            Says(c, off, len, multiset{e}) && Agree(b, c, 0, off) && Agree(b, c, off + len, 4096)
  {
    PutBytes(b, off, len, e);
  }

  /** A deleted record that is large enough is used again. */
  lemma Reused(b: Sector, off: nat, e: Entry)
    requires Tiles(b, off) && off < 4096 && Ino(b, off) == 0 && Need(|e.name|) <= RecLen(b, off)
    requires |e.name| <= 255 && 0 < e.ino < 0x1_0000_0000
    ensures var c := PutRec(b, off, RecLen(b, off), e);
            Tiles(c, off) && Entries(c, off) == Entries(b, off) + multiset{e} && Agree(b, c, 0, off)
  {
    var len := RecLen(b, off);
    PutIs(b, off, len, e);
    TailAgree(b, PutRec(b, off, len, e), off + len);
  }

  function PutLen(b: Sector, off: nat, len: nat): Sector
    requires off + 8 <= 4096 && len < 0x1_0000
  {
    b[off + 4 := len % 256][off + 5 := len / 256]
  }

  lemma LenIs(b: Sector, off: nat, len: nat)
    requires Record(b, off) && Ino(b, off) != 0 && Need(NameLen(b, off)) == len
    ensures var c := PutLen(b, off, len);
            Record(c, off) && RecLen(c, off) == len && This(c, off) == This(b, off) && Agree(b, c, 0, off) && Agree(b, c, off + len, 4096)
  {
    var c := PutLen(b, off, len);
    var n := NameLen(b, off);
    assert b[off + 8..off + 8 + n] == c[off + 8..off + 8 + n];
  }

  lemma AgreeTwice(b: Sector, d: Sector, c: Sector, off: nat, a: nat, len: nat)
    requires a <= len
    ensures Agree(b, d, off + a, 4096) && Agree(d, c, off + len, 4096) ==> Agree(b, c, off + len, 4096)
  {}

  /** A record of length a and one of length len - a follow each other at off; t is what they say. */
  ghost predicate Pair(c: Sector, off: nat, a: nat, len: nat, t: multiset<Entry>)
  {
    && Record(c, off) && RecLen(c, off) == a && Record(c, off + a) && RecLen(c, off + a) == len - a
    && t == This(c, off) + This(c, off + a)
  }

  lemma TwoRecords(c: Sector, off: nat, a: nat, len: nat, t: multiset<Entry>)
    requires 0 < a < len
    ensures Pair(c, off, a, len, t) && Tiles(c, off + len) ==> Tiles(c, off) && Entries(c, off) == t + Entries(c, off + len)
  {
    if Pair(c, off, a, len, t) && Tiles(c, off + len) {
      assert Tiles(c, off + a) && Entries(c, off + a) == This(c, off + a) + Entries(c, off + len);
    }
  }

  lemma PairOf(c: Sector, off: nat, a: nat, len: nat, t: multiset<Entry>, u: multiset<Entry>)
    requires a <= len
    ensures Says(c, off, a, t) && Says(c, off + a, len - a, u) ==> Pair(c, off, a, len, t + u)
  {}

  lemma Shrunk(b: Sector, off: nat, a: nat, d: Sector, c: Sector)
    requires Record(b, off) && Ino(b, off) != 0 && a == Need(NameLen(b, off)) && d == PutLen(b, off, a)
    ensures Agree(d, c, 0, off + a) ==> Says(c, off, a, This(b, off)) && Agree(b, c, 0, off) && Agree(b, d, off + a, 4096)
  {
    LenIs(b, off, a);
    if Agree(d, c, 0, off + a) { RecordAgree(d, c, off); }
  }

  lemma Placed(off: nat, e: Entry, a: nat, len: nat, d: Sector)
    requires off + len <= 4096 && len % 4 == 0 && a % 4 == 0 && a + Need(|e.name|) <= len && |e.name| <= 255 && 0 < e.ino < 0x1_0000_0000
    ensures var c := PutRec(d, off + a, len - a, e);
            Says(c, off + a, len - a, multiset{e}) && Agree(d, c, 0, off + a) && Agree(d, c, off + len, 4096)
  {
    PutIs(d, off + a, len - a, e);
  }

  lemma DividedPair(b: Sector, off: nat, e: Entry, a: nat, len: nat, d: Sector, c: Sector)
    requires Record(b, off) && Ino(b, off) != 0 && |e.name| <= 255 && 0 < e.ino < 0x1_0000_0000
    requires a == Need(NameLen(b, off)) && len == RecLen(b, off) && a + Need(|e.name|) <= len
    requires d == PutLen(b, off, a) && c == PutRec(d, off + a, len - a, e)
    ensures Pair(c, off, a, len, This(b, off) + multiset{e}) && Agree(b, c, 0, off) && Agree(b, c, off + len, 4096)
  {
    Placed(off, e, a, len, d);
    Shrunk(b, off, a, d, c);
    AgreeTwice(b, d, c, off, a, len);
    PairOf(c, off, a, len, This(b, off), multiset{e});
  }

  lemma PairTiles(b: Sector, c: Sector, off: nat, a: nat, len: nat, t: multiset<Entry>)
    requires 0 < a < len && Tiles(b, off + len) && Agree(b, c, off + len, 4096)
    ensures Pair(c, off, a, len, t) ==> Tiles(c, off) && Entries(c, off) == t + Entries(b, off + len)
  {
    TailAgree(b, c, off + len);
    TwoRecords(c, off, a, len, t);
  }

  /** The slack of a record in use becomes a record of its own. */
  lemma Divided(b: Sector, off: nat, e: Entry, a: nat, len: nat, d: Sector, c: Sector)
    requires Tiles(b, off) && off < 4096 && Ino(b, off) != 0 && |e.name| <= 255 && 0 < e.ino < 0x1_0000_0000
    requires a == Need(NameLen(b, off)) && len == RecLen(b, off) && a + Need(|e.name|) <= len
    requires d == PutLen(b, off, a) && c == PutRec(d, off + a, len - a, e)
    ensures Tiles(c, off) && Entries(c, off) == Entries(b, off) + multiset{e} && Agree(b, c, 0, off)
  {
    assert Record(b, off) && Tiles(b, off + len);
    DividedPair(b, off, e, a, len, d, c);
    PairTiles(b, c, off, a, len, This(b, off) + multiset{e});
    EntriesWith(b, off, e);
  }

  lemma EntriesWith(b: Sector, off: nat, e: Entry)
    requires Tiles(b, off) && off < 4096
    ensures This(b, off) + multiset{e} + Entries(b, off + RecLen(b, off)) == Entries(b, off) + multiset{e}
  {}

  /** A record is marked deleted. */
  function Erase(b: Sector, off: nat): Sector
    requires off + 8 <= 4096
  {
    b[off := 0][off + 1 := 0][off + 2 := 0][off + 3 := 0]
  }

  lemma EraseHeader(b: Sector, off: nat)
    requires off + 8 <= 4096
    ensures var c := Erase(b, off); Ino(c, off) == 0 && RecLen(c, off) == RecLen(b, off) && Agree(b, c, 0, off) && Agree(b, c, off + 4, 4096)
  {}

  lemma Erased(b: Sector, off: nat)
    requires Tiles(b, off) && off < 4096
    ensures var c := Erase(b, off);
            Tiles(c, off) && Entries(c, off) == Entries(b, off) - This(b, off) && Agree(b, c, 0, off)
  {
    EraseHeader(b, off);
    TailAgree(b, Erase(b, off), off + RecLen(b, off));
  }

  // ---------- searching and changing a block ----------

  /** Some entry of m has this name. */
  ghost predicate Named(m: multiset<Entry>, name: seq<byte>) { exists e | e in m :: e.name == name }

  /** The test of ffs_dir_lookup and ffs_dir_remove. */
  predicate Match(b: Sector, off: nat, name: seq<byte>)
    requires off + 8 <= 4096
  {
    Ino(b, off) != 0 && NameLen(b, off) == |name| && off + 8 + |name| <= 4096 && b[off + 8..off + 8 + |name|] == name
  }

  lemma MatchThis(b: Sector, off: nat, name: seq<byte>)
    requires Record(b, off)
    ensures Match(b, off, name) ==> This(b, off) == multiset{Entry(name, Ino(b, off), b[off + 7])}
    ensures !Match(b, off, name) ==> !Named(This(b, off), name)
  {}

  /** No entry before off has the name. */
  ghost predicate Searched(b: Sector, off: nat, name: seq<byte>)
  {
    Tiles(b, 0) && Reach(b, 0, off) && off <= 4096 && Tiles(b, off) && Entries(b, off) <= Entries(b, 0)
    && !Named(Entries(b, 0) - Entries(b, off), name)
  }

  lemma SearchedNext(b: Sector, off: nat, name: seq<byte>)
    requires Searched(b, off, name) && off < 4096 && !Match(b, off, name)
    ensures Record(b, off) && Searched(b, off + RecLen(b, off), name)
  {
    ReachNext(b, 0, off);
    MatchThis(b, off, name);
    var next := off + RecLen(b, off);
    assert Entries(b, off) == This(b, off) + Entries(b, next);
    assert Entries(b, 0) - Entries(b, next) == (Entries(b, 0) - Entries(b, off)) + This(b, off);
  }

  /** The inner loop of ffs_dir_lookup and ffs_dir_remove: where the block has the name, 4096 if nowhere. */
  method Find(b: Sector, name: seq<byte>) returns (off: nat)
    requires Tiles(b, 0)
    ensures Searched(b, off, name)
    ensures off < 4096 ==> Record(b, off) && Match(b, off, name) && This(b, off) <= Entries(b, 0)
    ensures off < 4096 <==> Named(Entries(b, 0), name)
  {
    off := 0;
    while off + 8 <= 4096
      invariant Searched(b, off, name)
    {
      if RecLen(b, off) == 0 { break; }
      if Match(b, off, name) {
        MatchThis(b, off, name);
        assert Entry(name, Ino(b, off), b[off + 7]) in This(b, off);
        return;
      }
      SearchedNext(b, off, name);
      off := off + RecLen(b, off);
    }
    assert off == 4096;
    assert Entries(b, 0) - Entries(b, off) == Entries(b, 0);
  }

  /** One block of ffs_dir_remove. */
  method Remove(b: Sector, name: seq<byte>) returns (ok: bool, c: Sector, ghost e: Entry)
    requires Tiles(b, 0)
    ensures ok <==> Named(Entries(b, 0), name)
    ensures !ok ==> c == b
    ensures ok ==> e.name == name && e in Entries(b, 0) && Tiles(c, 0) && Entries(c, 0) == Entries(b, 0) - multiset{e}
  {
    var off := Find(b, name);
    if off == 4096 { return false, b, Entry([], 0, 0); }
    e := Entry(name, Ino(b, off), b[off + 7]);
    MatchThis(b, off, name);
    ok, c := true, Erase(b, off);
    Erased(b, off);
    Replaced(b, c, 0, off);
    RemoveOne(Entries(b, 0), Entries(b, off), e);
  }

  lemma RemoveOne(m: multiset<Entry>, n: multiset<Entry>, e: Entry)
    requires n <= m && e in n
    ensures m - n + (n - multiset{e}) == m - multiset{e}
  {}

  lemma AddOne(m: multiset<Entry>, n: multiset<Entry>, e: Entry)
    requires n <= m
    ensures m - n + (n + multiset{e}) == m + multiset{e}
  {}

  lemma ReusedIn(b: Sector, off: nat, e: Entry, c: Sector)
    requires Tiles(b, 0) && Reach(b, 0, off) && Tiles(b, off) && off < 4096 && Ino(b, off) == 0 && Need(|e.name|) <= RecLen(b, off)
    requires |e.name| <= 255 && 0 < e.ino < 0x1_0000_0000 && c == PutRec(b, off, RecLen(b, off), e)
    ensures Tiles(c, 0) && Entries(c, 0) == Entries(b, 0) + multiset{e}
  {
    Reused(b, off, e);
    Replaced(b, c, 0, off);
    AddOne(Entries(b, 0), Entries(b, off), e);
  }

  lemma DividedIn(b: Sector, off: nat, e: Entry, a: nat, len: nat, d: Sector, c: Sector)
    requires Tiles(b, 0) && Reach(b, 0, off) && Tiles(b, off) && off < 4096 && Ino(b, off) != 0
    requires |e.name| <= 255 && 0 < e.ino < 0x1_0000_0000
    requires a == Need(NameLen(b, off)) && len == RecLen(b, off) && a + Need(|e.name|) <= len
    requires d == PutLen(b, off, a) && c == PutRec(d, off + a, len - a, e)
    ensures Tiles(c, 0) && Entries(c, 0) == Entries(b, 0) + multiset{e}
  {
    Divided(b, off, e, a, len, d, c);
    Replaced(b, c, 0, off);
    AddOne(Entries(b, 0), Entries(b, off), e);
  }

  /** The record at off can take an entry that needs n bytes: all of it if it is deleted, else what its own entry leaves. */
  ghost predicate Roomy(b: Sector, off: nat, n: nat)
    requires Record(b, off)
  {
    RecLen(b, off) - (if Ino(b, off) == 0 then 0 else Need(NameLen(b, off))) >= n
  }

  /** Some record from off on can. */
  ghost predicate Room(b: Sector, off: nat, n: nat)
    requires Tiles(b, off)
    decreases 4096 - off, b
  {
    off < 4096 && (Roomy(b, off, n) || Room(b, off + RecLen(b, off), n))
  }

  /** One block of ffs_dir_add: a free record, or the slack of one in use, takes the new entry. */
  method Add(b: Sector, e: Entry) returns (ok: bool, c: Sector)
    requires Tiles(b, 0) && |e.name| <= 255 && 0 < e.ino < 0x1_0000_0000
    ensures ok <==> Room(b, 0, Need(|e.name|))
    ensures !ok ==> c == b
    ensures ok ==> Tiles(c, 0) && Entries(c, 0) == Entries(b, 0) + multiset{e}
  {
    var need := Need(|e.name|);
    var off := 0;
    while off + 8 <= 4096
      invariant off <= 4096 && Reach(b, 0, off) && Tiles(b, off) && Room(b, off, need) == Room(b, 0, need)
    {
      var len := RecLen(b, off);
      if len == 0 { assert false; }
      if Ino(b, off) == 0 && len >= need {
        ok, c := true, PutRec(b, off, len, e);
        ReusedIn(b, off, e, c);
        return;
      }
      if Ino(b, off) != 0 {
        var actual := Need(NameLen(b, off));
        if len - actual >= need {
          var d := PutLen(b, off, actual);
          ok, c := true, PutRec(d, off + actual, len - actual, e);
          DividedIn(b, off, e, actual, len, d, c);
          return;
        }
      }
      ReachNext(b, 0, off);
      off := off + len;
    }
    ok, c := false, b;
  }
}
