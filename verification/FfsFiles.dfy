/** The file system of kernel/vfs/ffs.c as its callers see it: a finite map from names to contents. */
module FfsFiles {
  import opened Bits
  import opened Bitmap
  import opened FfsModel
  import opened FfsRelease
  import opened FfsSpace
  import opened FfsVolume
  import opened FfsDirectory
  import opened FfsInodes
  import Dir = FfsDir

  type Name = seq<byte>

  // ---------- names, inodes and contents ----------

  ghost predicate HasName(m: multiset<Dir.Entry>, n: Name) { exists e :: e in m && e.name == n && e.ino != 1 }

  ghost predicate HasInode(m: multiset<Dir.Entry>, i: nat) { exists e :: e in m && e.ino == i }

  /** Every name but those of the root leads to a file with these contents. */
  ghost predicate Leads(v: Vol, m: multiset<Dir.Entry>, files: map<Name, seq<byte>>)
  {
    forall e | e in m :: e.ino in v.inodes && (e.ino != 1 ==> e.name in files && files[e.name] == Contents(v, e.ino))
  }

  /** No two names lead to one inode. */
  ghost predicate Apart(m: multiset<Dir.Entry>)
  {
    forall e, f | e in m && f in m && e.ino == f.ino && e.ino != 1 :: e == f
  }

  ghost predicate Covers(m: multiset<Dir.Entry>, files: map<Name, seq<byte>>) { forall n | n in files :: HasName(m, n) }

  ghost predicate Reaches(v: Vol, m: multiset<Dir.Entry>) { forall i | i in v.inodes && i != 1 :: HasInode(m, i) }

  /** Every name but those of the root leads to an inode of its own, every inode has a name, and files holds the contents
      of each; kept folded. */
  ghost predicate Tree(v: Vol, m: multiset<Dir.Entry>, files: map<Name, seq<byte>>)
  {
    forall k: nat {:trigger Folded(k)} | Folded(k) :: Functional(m) && Leads(v, m, files) && Apart(m) && Covers(m, files) && Reaches(v, m)
  }

  lemma MakeNames(m: multiset<Dir.Entry>, e: Dir.Entry, n: Name, i: nat)
    ensures HasName(m, n) || (n == e.name && e.ino != 1) ==> HasName(m + multiset{e}, n)
    ensures HasInode(m, i) || i == e.ino ==> HasInode(m + multiset{e}, i)
  {
    var p := m + multiset{e};
    assert e in p;
    if HasName(m, n) {
      var f :| f in m && f.name == n && f.ino != 1;
      assert f in p;
    }
    if HasInode(m, i) {
      var f :| f in m && f.ino == i;
      assert f in p;
    }
  }

  lemma MakeCovers(v: Vol, w: Vol, m: multiset<Dir.Entry>, e: Dir.Entry, files: map<Name, seq<byte>>)
    requires w.inodes.Keys == v.inodes.Keys + {e.ino} && e.ino != 1 && Covers(m, files) && Reaches(v, m)
    ensures Covers(m + multiset{e}, files[e.name := []]) && Reaches(w, m + multiset{e})
  {
    var p := m + multiset{e};
    forall n | n in files[e.name := []] ensures HasName(p, n) { MakeNames(m, e, n, 0); }
    forall i | i in w.inodes && i != 1 ensures HasInode(p, i) { MakeNames(m, e, e.name, i); }
  }

  lemma MakeLeads(v: Vol, w: Vol, m: multiset<Dir.Entry>, e: Dir.Entry, files: map<Name, seq<byte>>)
    requires w.inodes.Keys == v.inodes.Keys + {e.ino} && e.ino !in v.inodes && !Dir.Named(m, e.name) && Leads(v, m, files) && Apart(m)
    requires Contents(w, e.ino) == [] && forall j | j in v.inodes && j != 1 :: Contents(w, j) == Contents(v, j)
    ensures Leads(w, m + multiset{e}, files[e.name := []]) && Apart(m + multiset{e})
  {
    var p, g := m + multiset{e}, files[e.name := []];
    forall f | f in p ensures f in m || f == e {}
    forall f | f in p ensures f.ino in w.inodes && (f.ino != 1 ==> f.name in g && g[f.name] == Contents(w, f.ino)) {
      if f != e { assert f in m && f.name != e.name; }
    }
  }

  lemma TreeMake(v: Vol, w: Vol, m: multiset<Dir.Entry>, e: Dir.Entry, files: map<Name, seq<byte>>)
    requires w.inodes.Keys == v.inodes.Keys + {e.ino} && e.ino !in v.inodes && e.ino != 1 && !Dir.Named(m, e.name)
    requires Contents(w, e.ino) == [] && forall j | j in v.inodes && j != 1 :: Contents(w, j) == Contents(v, j)
    ensures Tree(v, m, files) ==> Tree(w, m + multiset{e}, files[e.name := []])
  {
    if Tree(v, m, files) {
      assert Folded(0);
      StillFunctional(m, e);
      MakeCovers(v, w, m, e, files);
      MakeLeads(v, w, m, e, files);
    }
  }

  lemma EditLeads(v: Vol, w: Vol, m: multiset<Dir.Entry>, e: Dir.Entry, files: map<Name, seq<byte>>)
    requires e in m && e.ino != 1 && e.ino in v.inodes && SameOthers(v, w, e.ino)
    requires Functional(m) && Leads(v, m, files) && Apart(m)
    ensures Leads(w, m, files[e.name := Contents(w, e.ino)])
  {
    var g := files[e.name := Contents(w, e.ino)];
    forall f | f in m ensures f.ino in w.inodes && (f.ino != 1 ==> f.name in g && g[f.name] == Contents(w, f.ino)) {
      if f.ino != 1 && f != e { assert f.ino != e.ino && f.name != e.name; }
    }
  }

  lemma TreeEdit(v: Vol, w: Vol, m: multiset<Dir.Entry>, e: Dir.Entry, files: map<Name, seq<byte>>)
    requires e in m && e.ino != 1 && e.ino in v.inodes && SameOthers(v, w, e.ino)
    ensures Tree(v, m, files) ==> Tree(w, m, files[e.name := Contents(w, e.ino)])
  {
    if Tree(v, m, files) {
      assert Folded(0);
      EditLeads(v, w, m, e, files);
      var g := files[e.name := Contents(w, e.ino)];
      forall n | n in g ensures HasName(m, n) {
        if n == e.name { assert e in m && e.name == n; }
      }
    }
  }

  lemma DropNames(m: multiset<Dir.Entry>, e: Dir.Entry, n: Name, i: nat)
    ensures HasName(m, n) && n != e.name ==> HasName(m - multiset{e}, n)
    ensures HasInode(m, i) && i != e.ino ==> HasInode(m - multiset{e}, i)
  {
    var q := m - multiset{e};
    if HasName(m, n) && n != e.name {
      var f :| f in m && f.name == n && f.ino != 1;
      assert f in q;
    }
    if HasInode(m, i) && i != e.ino {
      var f :| f in m && f.ino == i;
      assert f in q;
    }
  }

  lemma DropCovers(v: Vol, w: Vol, m: multiset<Dir.Entry>, e: Dir.Entry, files: map<Name, seq<byte>>)
    requires w.inodes.Keys == v.inodes.Keys - {e.ino} && Covers(m, files) && Reaches(v, m)
    ensures Covers(m - multiset{e}, files - {e.name}) && Reaches(w, m - multiset{e})
  {
    var q := m - multiset{e};
    forall n | n in files - {e.name} ensures HasName(q, n) { DropNames(m, e, n, 0); }
    forall i | i in w.inodes && i != 1 ensures HasInode(q, i) { DropNames(m, e, e.name, i); }
  }

  lemma DropLeads(v: Vol, w: Vol, m: multiset<Dir.Entry>, e: Dir.Entry, files: map<Name, seq<byte>>)
    requires e in m && e.ino != 1 && w.inodes.Keys == v.inodes.Keys - {e.ino} && Functional(m) && Leads(v, m, files) && Apart(m)
    requires forall j | j in w.inodes && j != 1 :: Contents(w, j) == Contents(v, j)
    ensures Leads(w, m - multiset{e}, files - {e.name}) && Apart(m - multiset{e})
  {
    var q, g := m - multiset{e}, files - {e.name};
    assert m[e] == 1;
    forall f | f in q ensures f in m && f != e {}
    forall f | f in q ensures f.ino in w.inodes && (f.ino != 1 ==> f.name in g && g[f.name] == Contents(w, f.ino)) {
      assert f.ino != e.ino && f.name != e.name;
    }
  }

  lemma TreeDrop(v: Vol, w: Vol, m: multiset<Dir.Entry>, e: Dir.Entry, files: map<Name, seq<byte>>)
    requires e in m && e.ino != 1 && w.inodes.Keys == v.inodes.Keys - {e.ino}
    requires forall j | j in w.inodes && j != 1 :: Contents(w, j) == Contents(v, j)
    ensures Tree(v, m, files) ==> Tree(w, m - multiset{e}, files - {e.name})
  {
    if Tree(v, m, files) {
      assert Folded(0);
      StillFunctional(m, e);
      DropCovers(v, w, m, e, files);
      DropLeads(v, w, m, e, files);
    }
  }

  /** A name has an inode other than the root exactly if it is a file. */
  lemma TreeFind(v: Vol, m: multiset<Dir.Entry>, files: map<Name, seq<byte>>, n: Name)
    requires Tree(v, m, files)
    ensures n in files <==> HasName(m, n)
    ensures n in files ==> Dir.Named(m, n)
    ensures forall e | e in m && e.name == n :: e.ino in v.inodes && (e.ino != 1 <==> n in files)
    ensures forall e | e in m && e.name == n && e.ino != 1 :: files[n] == Contents(v, e.ino)
    ensures forall e, f | e in m && f in m && e.name == n && f.name == n :: e == f
  {
    assert Folded(0);
    if n in files {
      assert HasName(m, n);
      var e :| e in m && e.name == n && e.ino != 1;
      assert Dir.Named(m, n);
    }
  }

  /** An inode just taken has no blocks. */
  lemma NewInode(v: Vol, w: Vol, i: nat)
    requires Sound(v) && i !in v.inodes && w == v.(inodes := v.inodes[i := EMPTY])
    ensures Sound(w) && SameRefs(v, w) && Contents(w, i) == []
    ensures forall j | j in v.inodes :: Contents(w, j) == Contents(v, j)
  {
    forall j: nat, t: nat ensures R(w, j, t) == R(v, j, t) {}
    SameSound(v, w);
    forall j | j in v.inodes ensures Contents(w, j) == Contents(v, j) {
      forall k: nat | k < v.inodes[j].size ensures ByteAt(w, j, k) == ByteAt(v, j, k) {
        assert R(w, j, k / 4096) == R(v, j, k / 4096);
      }
    }
  }

  ghost predicate MountKey(n: nat) { true }

  /** A sound volume whose root directory names the files; kept folded. */
  ghost predicate Mounted(v: Vol, files: map<Name, seq<byte>>)
  {
    forall n: nat {:trigger MountKey(n)} | MountKey(n) ::
      Sound(v) && 1 in v.inodes && IsDir(Contents(v, 1)) && Tree(v, All(Contents(v, 1)), files)
  }

  lemma MountedIs(v: Vol, files: map<Name, seq<byte>>)
    ensures Mounted(v, files) <==> Sound(v) && 1 in v.inodes && IsDir(Contents(v, 1)) && Tree(v, All(Contents(v, 1)), files)
  {
    assert MountKey(0);
  }

  lemma Made(v: Vol, u: Vol, w: Vol, e: Dir.Entry, files: map<Name, seq<byte>>)
    requires Mounted(v, files) && e.ino !in v.inodes && u == v.(inodes := v.inodes[e.ino := EMPTY]) && e.ino != 1
    requires 1 in v.inodes && IsDir(Contents(v, 1)) && !Dir.Named(All(Contents(v, 1)), e.name)
    requires Relisted(u, w, 1, All(Contents(v, 1)) + multiset{e})
    ensures Mounted(w, files[e.name := []])
  {
    MountedIs(v, files);
    NewInode(v, u, e.ino);
    TreeMake(v, w, All(Contents(v, 1)), e, files);
  }

  lemma Edited(v: Vol, w: Vol, e: Dir.Entry, files: map<Name, seq<byte>>)
    requires Mounted(v, files) && 1 in v.inodes && IsDir(Contents(v, 1)) && e in All(Contents(v, 1)) && e.ino != 1 && e.ino in v.inodes
    requires Sound(w) && SameOthers(v, w, e.ino)
    ensures Mounted(w, files[e.name := Contents(w, e.ino)])
  {
    MountedIs(v, files);
    TreeEdit(v, w, All(Contents(v, 1)), e, files);
  }

  lemma Unlinked(v: Vol, u: Vol, w: Vol, e: Dir.Entry, files: map<Name, seq<byte>>, total: nat)
    requires Mounted(v, files) && 1 in v.inodes && IsDir(Contents(v, 1)) && e in All(Contents(v, 1)) && e.ino != 1
    requires Relisted(v, u, 1, All(Contents(v, 1)) - multiset{e}) && Trims(u, w, e.ino, total) && w.inodes == u.inodes - {e.ino} && Sound(w)
    ensures Mounted(w, files - {e.name})
  {
    MountedIs(v, files);
    TrimmedContents(u, w, e.ino, total);
    TreeDrop(v, w, All(Contents(v, 1)), e, files);
  }
}
