/** The four-level page tables of kernel/mm/mm.c, which share part of the kernel's tables: what an address space owns, and how
    amm_vmap_destroy takes it down. Virtual addresses are page numbers. */
module PageTables {
  import opened Bits
  import opened PageMemory

  // ---------- what an address space owns ----------

  /** A node of the page-table tree: the indices that lead to it. [] is the PML4; data pages have four indices. */
  type Path = seq<nat>

  type Owned = map<Path, nat>

  /** The entries that belong to the kernel: the upper half, 1 GB to 4 GB, and 64 MB to 1 GB. */
  predicate Shared(p: Path, i: nat)
  {
    (p == [] && i >= 256) || (p == [0] && 1 <= i <= 3) || (p == [0, 0] && i >= 32)
  }

  /** An entry that leads to a table restricts nothing: the last entry decides on the rights. */
  predicate Open(e: Entry) { e.Entry? && e.write && e.user && e.exec }

  ghost predicate Link(mem: map<nat, Table>, own: Owned, p: Path, i: nat)
    requires p in own
  {
    var e := EntryAt(Page(mem, own[p]), i);
    if p + [i] in own then e.Entry? && e.page == own[p + [i]] && !e.huge && (|p| < 3 ==> Open(e)) else e == Absent
  }

  /** Every entry of its own leads to the page it owns there, and to nothing where it owns nothing. */
  ghost predicate Linked(mem: map<nat, Table>, own: Owned)
  {
    forall p, i: nat {:trigger Link(mem, own, p, i)} | p in own && |p| < 4 && i < 512 && !Shared(p, i) :: Link(mem, own, p, i)
  }

  ghost predicate Child(own: Owned, p: Path)
  {
    0 < |p| <= 4 && p[..|p| - 1] in own && p[|p| - 1] < 512 && !Shared(p[..|p| - 1], p[|p| - 1])
  }

  ghost predicate Rooted(own: Owned, root: nat)
  {
    [] in own && own[[]] == root && forall p {:trigger Child(own, p)} | p in own && p != [] :: Child(own, p)
  }

  /** No page is owned twice. */
  ghost predicate Single(own: Owned) { forall p, q | p in own && q in own && own[p] == own[q] :: p == q }

  /** The entries from 64 MB on are zero or map 2 MB of the kernel's. */
  ghost predicate Window(mem: map<nat, Table>, own: Owned)
  {
    [0, 0] in own && forall i: nat | 32 <= i < 512 :: Foreign(EntryAt(Page(mem, own[[0, 0]]), i))
  }

  predicate Foreign(e: Entry) { e == Absent || e.huge }

  ghost predicate Tables(mem: map<nat, Table>, own: Owned, root: nat)
  {
    Linked(mem, own) && Rooted(own, root) && Single(own) && Window(mem, own)
  }

  lemma Snoc(p: Path, i: nat)
    ensures (p + [i])[..|p + [i]| - 1] == p
  {}

  lemma SnocIs(p: Path, i: nat, q: Path, j: nat)
    requires p + [i] == q + [j]
    ensures p == q && i == j
  {
    assert (p + [i])[|p|] == i && (q + [j])[|q|] == j;
    Snoc(p, i);
    Snoc(q, j);
  }

  /** A prefix of an owned path is owned. */
  lemma {:induction false} Prefix(own: Owned, root: nat, q: Path, k: nat)
    requires Rooted(own, root) && q in own && k <= |q|
    ensures q[..k] in own
    decreases |q|
  {
    if k == |q| {
      assert q[..k] == q;
    } else {
      assert Child(own, q);
      Prefix(own, root, q[..|q| - 1], k);
      assert q[..|q| - 1][..k] == q[..k];
    }
  }

  lemma ParentOwned(own: Owned, root: nat, p: Path, i: nat)
    requires Rooted(own, root)
    ensures p + [i] in own ==> p in own && i < 512 && !Shared(p, i)
  {
    Snoc(p, i);
    assert p + [i] in own ==> Child(own, p + [i]);
  }

  // ---------- adding one page ----------

  /** Page c is entered in slot i of node p; a new table is blank. */
  ghost predicate Entered(mem: map<nat, Table>, now: map<nat, Table>, own: Owned, p: Path, i: nat, e: Entry)
    requires p in own
  {
    && e.Entry? && !e.huge && Page(now, own[p]) == Page(mem, own[p])[i := e]
    && (forall q | q in own && q != p :: Page(now, own[q]) == Page(mem, own[q]))
    && (|p| < 3 ==> Open(e) && p + [i] !in own && Page(now, e.page) == map[])
  }

  lemma GrowRooted(own: Owned, root: nat, p: Path, i: nat, c: nat)
    requires Rooted(own, root) && p in own && |p| < 4 && i < 512 && !Shared(p, i)
    ensures Rooted(own[p + [i] := c], root)
  {
    var now := own[p + [i] := c];
    forall q | q in now && q != [] ensures Child(now, q) {
      if q == p + [i] { Snoc(p, i); } else { assert Child(own, q); }
    }
  }

  lemma GrowSingle(own: Owned, k: Path, c: nat)
    requires Single(own) && c !in own.Values
    ensures Single(own[k := c])
  {
    forall q | q in own ensures own[q] in own.Values {}
  }

  lemma GrowLink(mem: map<nat, Table>, now: map<nat, Table>, own: Owned, root: nat, p: Path, i: nat, e: Entry, q: Path, j: nat)
    requires Tables(mem, own, root) && p in own && |p| < 4 && i < 512 && !Shared(p, i) && Entered(mem, now, own, p, i, e)
    requires q in own[p + [i] := e.page] && |q| < 4 && j < 512 && !Shared(q, j)
    ensures Link(now, own[p + [i] := e.page], q, j)
  {
    if q + [j] == p + [i] {
      SnocIs(q, j, p, i);
    } else if q == p + [i] {
      ParentOwned(own, root, q, j);
    } else {
      assert Link(mem, own, q, j);
    }
  }

  lemma GrowWindow(mem: map<nat, Table>, now: map<nat, Table>, own: Owned, p: Path, i: nat, e: Entry)
    requires Window(mem, own) && p in own && |p| < 4 && !Shared(p, i) && Entered(mem, now, own, p, i, e)
    ensures Window(now, own[p + [i] := e.page])
  {
    var w := own[[0, 0]];
    forall j: nat | 32 <= j < 512 ensures EntryAt(Page(now, w), j) == EntryAt(Page(mem, w), j) {}
    assert p + [i] != [0, 0] by { if |p| == 1 { assert p + [i] !in own; } }
  }

  lemma Grow(mem: map<nat, Table>, now: map<nat, Table>, own: Owned, root: nat, p: Path, i: nat, e: Entry)
    requires Tables(mem, own, root) && p in own && |p| < 4 && i < 512 && !Shared(p, i) && Entered(mem, now, own, p, i, e)
    requires e.page !in own.Values
    ensures Tables(now, own[p + [i] := e.page], root)
  {
    var own' := own[p + [i] := e.page];
    forall q, j: nat | q in own' && |q| < 4 && j < 512 && !Shared(q, j) ensures Link(now, own', q, j) {
      GrowLink(mem, now, own, root, p, i, e, q, j);
    }
    GrowRooted(own, root, p, i, e.page);
    GrowSingle(own, p + [i], e.page);
    GrowWindow(mem, now, own, p, i, e);
  }

  /** Tables that are not written stay as they are. */
  lemma Untouched(mem: map<nat, Table>, now: map<nat, Table>, own: Owned, root: nat)
    requires Tables(mem, own, root) && forall q | q in own :: Page(now, own[q]) == Page(mem, own[q])
    ensures Tables(now, own, root)
  {
    forall q, j: nat | q in own && |q| < 4 && j < 512 && !Shared(q, j) ensures Link(now, own, q, j) {
      assert Link(mem, own, q, j);
    }
  }

  lemma ValuesAdd(own: Owned, k: Path, c: nat)
    requires k !in own
    ensures own[k := c].Values == own.Values + {c}
  {
    forall q | q in own ensures own[k := c][q] == own[q] {}
    assert own[k := c][k] == c;
    forall x | x in own.Values ensures x in own[k := c].Values {
      var q :| q in own && own[q] == x;
      assert own[k := c][q] == x;
    }
  }

  lemma ValuesReplace(own: Owned, k: Path, c: nat)
    requires k in own && Single(own) && c !in own.Values
    ensures own[k := c].Values == own.Values - {own[k]} + {c}
  {
    assert own[k := c][k] == c;
    forall x | x in own.Values && x != own[k] ensures x in own[k := c].Values {
      var q :| q in own && own[q] == x;
      assert own[k := c][q] == x;
    }
    forall x | x in own[k := c].Values && x != c ensures x in own.Values - {own[k]} {
      var q :| q in own[k := c] && own[k := c][q] == x;
      assert own[q] == x;
    }
  }

  lemma {:induction false} PagesSize(own: Owned, s: set<Path>)
    requires Single(own) && s <= own.Keys
    ensures |set q | q in s :: own[q]| == |s|
    decreases |s|
  {
    if s != {} {
      var k :| k in s;
      PagesSize(own, s - {k});
      var rest := set q | q in s - {k} :: own[q];
      assert own[k] !in rest;
      assert (set q | q in s :: own[q]) == rest + {own[k]};
    }
  }

  /** As many pages as paths. */
  lemma ValuesSize(own: Owned)
    requires Single(own)
    ensures |own.Values| == |own.Keys|
  {
    PagesSize(own, own.Keys);
    assert own.Values == set q | q in own.Keys :: own[q];
  }

  // ---------- virtual addresses ----------

  function Index(v: nat, level: nat): nat
    requires level < 4
  {
    match level
    case 0 => v / 0x800_0000 % 512
    case 1 => v / 0x4_0000 % 512
    case 2 => v / 0x200 % 512
    case 3 => v % 512
  }

  /** The path of a virtual page. */
  function PathOf(v: nat): Path { [Index(v, 0), Index(v, 1), Index(v, 2), Index(v, 3)] }

  /** A user address outside the window shared with the kernel. */
  predicate UserPage(v: nat)
  {
    !Shared([], Index(v, 0)) && !Shared([Index(v, 0)], Index(v, 1)) && !Shared([Index(v, 0), Index(v, 1)], Index(v, 2))
  }

  /** The user's addresses: up to 64 MB, and from 4 GB up to the upper half. */
  lemma UserPageIs(v: nat)
    requires v < 0x10_0000_0000
    ensures UserPage(v) <==> v < 0x4000 || 0x10_0000 <= v < 0x8_0000_0000
  {
    var a, b, c := Index(v, 0), Index(v, 1), Index(v, 2);
    Digits(v);
    assert [a] == [0] <==> a == 0;
    assert [a, b] == [0, 0] <==> a == 0 && b == 0 by {
      assert [a, b][0] == a && [a, b][1] == b;
    }
  }

  /** Two virtual pages of the 48-bit address space have the same path only if they are the same. */
  lemma PathIs(v: nat, w: nat)
    requires v < 0x10_0000_0000 && w < 0x10_0000_0000
    ensures PathOf(v) == PathOf(w) <==> v == w
  {
    if PathOf(v) == PathOf(w) {
      assert forall l: nat | l < 4 :: PathOf(v)[l] == Index(v, l) && PathOf(w)[l] == Index(w, l);
      Digits(v);
      Digits(w);
    }
  }

  lemma Digits(v: nat)
    requires v < 0x10_0000_0000
    ensures v == 0x800_0000 * Index(v, 0) + 0x4_0000 * Index(v, 1) + 0x200 * Index(v, 2) + Index(v, 3)
  {
    var a := v / 0x200;
    DivDiv(v, 0x200, 0x200);
    DivDiv(v, 0x200, 0x4_0000);
    DivDiv(a, 0x200, 0x200);
    TopDigit(a / 0x200);
  }

  lemma TopDigit(b: nat)
    requires b < 0x4_0000
    ensures b == 512 * (b / 512 % 512) + b % 512
  {}

  // ---------- taking down ----------

  /** An address space and the memory at the time it is destroyed. */
  datatype World = World(free: set<nat>, taken: set<nat>, mem: map<nat, Table>, own: Owned, root: nat)

  ghost predicate Sound(w: World) { Tables(w.mem, w.own, w.root) && w.own.Values <= w.taken }

  ghost predicate IsPrefix(p: Path, q: Path) { |p| <= |q| && q[..|p|] == p }

  /** The pages owned at p and below it. */
  ghost function Below(own: Owned, p: Path): set<nat> { set q | q in own && IsPrefix(p, q) :: own[q] }

  /** The pages owned below the first i entries of p. */
  ghost function Done(own: Owned, p: Path, i: nat): set<nat>
  {
    set q | q in own && |p| < |q| && IsPrefix(p, q) && q[|p|] < i :: own[q]
  }

  /** Exactly the pages of done were given back, and only free pages were written. */
  ghost predicate Swept(m: Memory, w: World, done: set<nat>)
    reads m, m.phys
  {
    && m.Valid() && m.Free() == w.free + done && m.taken == w.taken - done
    && forall x: nat {:trigger Page(m.mem, x)} | x !in m.Free() :: Page(m.mem, x) == Page(w.mem, x)
  }

  lemma PrefixNext(p: Path, i: nat, q: Path)
    ensures IsPrefix(p + [i], q) <==> |p| < |q| && IsPrefix(p, q) && q[|p|] == i
  {
    if |p| < |q| {
      assert q[..|p| + 1] == q[..|p|] + [q[|p|]];
      if IsPrefix(p + [i], q) { SnocIs(p, i, q[..|p|], q[|p|]); }
    }
  }

  lemma DoneNext(own: Owned, p: Path, i: nat)
    ensures Done(own, p, i + 1) == Done(own, p, i) + Below(own, p + [i])
  {
    forall q | q in own ensures IsPrefix(p + [i], q) <==> |p| < |q| && IsPrefix(p, q) && q[|p|] == i { PrefixNext(p, i, q); }
  }

  /** Nothing is owned below an entry that is not owned. */
  lemma BelowNone(own: Owned, root: nat, p: Path, i: nat)
    requires Rooted(own, root) && p + [i] !in own
    ensures Below(own, p + [i]) == {}
  {
    forall q | q in own ensures !IsPrefix(p + [i], q) {
      if |p| + 1 <= |q| { Prefix(own, root, q, |p| + 1); }
    }
  }

  lemma BelowIs(own: Owned, root: nat, p: Path)
    requires Rooted(own, root) && p in own
    ensures Below(own, p) == {own[p]} + Done(own, p, 512)
  {
    forall q | q in own && IsPrefix(p, q) && q != p ensures |p| < |q| && q[|p|] < 512 {
      assert q[..|q|] == q;
      Prefix(own, root, q, |p| + 1);
      assert Child(own, q[..|p| + 1]);
    }
    assert IsPrefix(p, p) by { assert p[..|p|] == p; }
  }

  /** What lies at p or below its later entries is not among the pages of its first i entries. */
  lemma NotDone(own: Owned, p: Path, i: nat, q: Path)
    requires Single(own) && q in own && (q == p || IsPrefix(p + [i], q))
    ensures own[q] !in Done(own, p, i)
  {
    PrefixNext(p, i, q);
  }

  /** The entry i of the table at p, while its first i entries are done with. */
  lemma Next(m: Memory, w: World, done: set<nat>, p: Path, i: nat)
    requires Sound(w) && Swept(m, w, done + Done(w.own, p, i)) && p in w.own && |p| < 4 && i < 512
    requires done !! Below(w.own, p)
    ensures Page(m.mem, w.own[p]) == Page(w.mem, w.own[p])
    ensures p + [i] !in w.own ==> Swept(m, w, done + Done(w.own, p, i + 1))
  {
    AtHome(m, w, done, p, i);
    NextSets(w, done, p, i);
  }

  lemma NextSets(w: World, done: set<nat>, p: Path, i: nat)
    requires Sound(w) && p in w.own && |p| < 4 && i < 512 && done !! Below(w.own, p)
    ensures if Shared(p, i) then p + [i] !in w.own else Link(w.mem, w.own, p, i)
    ensures p + [i] !in w.own ==> Done(w.own, p, i + 1) == Done(w.own, p, i)
    ensures done + Done(w.own, p, i) + Below(w.own, p + [i]) == done + Done(w.own, p, i + 1)
    ensures (done + Done(w.own, p, i)) !! Below(w.own, p + [i])
  {
    var own, root := w.own, w.root;
    ParentOwned(own, root, p, i);
    DoneNext(own, p, i);
    if p + [i] !in own { BelowNone(own, root, p, i); }
    forall q | q in own && IsPrefix(p + [i], q) ensures own[q] !in Done(own, p, i) && own[q] !in done {
      NotDone(own, p, i, q);
      PrefixNext(p, i, q);
      assert own[q] in Below(own, p);
    }
  }

  lemma AtHome(m: Memory, w: World, done: set<nat>, p: Path, i: nat)
    requires Sound(w) && Swept(m, w, done + Done(w.own, p, i)) && p in w.own && done !! Below(w.own, p)
    ensures w.own[p] !in done + Done(w.own, p, i) && Page(m.mem, w.own[p]) == Page(w.mem, w.own[p])
  {
    NotDone(w.own, p, i, p);
    assert IsPrefix(p, p) by { assert p[..|p|] == p; }
    assert w.own[p] in Below(w.own, p);
    assert w.own[p] in w.own.Values;
    m.TakenNotFree(w.own[p]);
  }

  /** One page is given back. */
  method Drop(m: Memory, x: nat, ghost w: World, ghost done: set<nat>)
    requires Sound(w) && Swept(m, w, done) && x in w.own.Values && x !in done
    modifies m, m.phys
    ensures Swept(m, w, done + {x})
  {
    m.Release(x);
  }

  /** A page table and the data pages it maps: the innermost loop of amm_vmap_destroy. */
  method DropPt(m: Memory, t: nat, ghost w: World, ghost done: set<nat>, ghost p: Path)
    requires Sound(w) && Swept(m, w, done) && p in w.own && w.own[p] == t && |p| == 3 && done !! Below(w.own, p)
    modifies m, m.phys
    ensures Swept(m, w, done + Below(w.own, p))
  {
    var i := 0;
    assert done + Done(w.own, p, 0) == done;
    while i < 512
      invariant 0 <= i <= 512 && Swept(m, w, done + Done(w.own, p, i))
    {
      DropData(m, t, i, w, done, p);
      i := i + 1;
    }
    DropTable(m, t, w, done, p);
  }

  lemma BelowAll(w: World, done: set<nat>, p: Path)
    requires Sound(w) && p in w.own
    ensures w.own[p] in w.own.Values && done + Done(w.own, p, 512) + {w.own[p]} == done + Below(w.own, p)
  {
    BelowIs(w.own, w.root, p);
  }

  method DropTable(m: Memory, t: nat, ghost w: World, ghost done: set<nat>, ghost p: Path)
    requires Sound(w) && Swept(m, w, done + Done(w.own, p, 512)) && p in w.own && w.own[p] == t && done !! Below(w.own, p)
    modifies m, m.phys
    ensures Swept(m, w, done + Below(w.own, p))
  {
    AtHome(m, w, done, p, 512);
    BelowAll(w, done, p);
    Drop(m, t, w, done + Done(w.own, p, 512));
  }

  method DropData(m: Memory, t: nat, i: nat, ghost w: World, ghost done: set<nat>, ghost p: Path)
    requires Sound(w) && Swept(m, w, done + Done(w.own, p, i)) && p in w.own && w.own[p] == t && |p| == 3 && i < 512
    requires done !! Below(w.own, p)
    modifies m, m.phys
    ensures Swept(m, w, done + Done(w.own, p, i + 1))
  {
    Next(m, w, done, p, i);
    NextSets(w, done, p, i);
    var e := EntryAt(Page(m.mem, t), i);
    if e.Entry? {
      LeafBelow(w, p + [i]);
      Drop(m, e.page, w, done + Done(w.own, p, i));
    }
  }

  lemma LeafBelow(w: World, q: Path)
    requires Sound(w) && q in w.own && |q| == 4
    ensures Below(w.own, q) == {w.own[q]}
  {
    forall r | r in w.own && IsPrefix(q, r) ensures r == q {
      assert r != [] ==> Child(w.own, r);
      assert r[..|r|] == r;
    }
    assert IsPrefix(q, q) by { assert q[..|q|] == q; }
  }

  /** A page directory and all below it; 2 MB entries are the kernel's and stay. */
  method DropPd(m: Memory, t: nat, ghost w: World, ghost done: set<nat>, ghost p: Path)
    requires Sound(w) && Swept(m, w, done) && p in w.own && w.own[p] == t && |p| == 2 && done !! Below(w.own, p)
    modifies m, m.phys
    ensures Swept(m, w, done + Below(w.own, p))
  {
    var i := 0;
    assert done + Done(w.own, p, 0) == done;
    while i < 512
      invariant 0 <= i <= 512 && Swept(m, w, done + Done(w.own, p, i))
    {
      DropPdEntry(m, t, i, w, done, p);
      i := i + 1;
    }
    DropTable(m, t, w, done, p);
  }

  method DropPdEntry(m: Memory, t: nat, i: nat, ghost w: World, ghost done: set<nat>, ghost p: Path)
    requires Sound(w) && Swept(m, w, done + Done(w.own, p, i)) && p in w.own && w.own[p] == t && |p| == 2 && i < 512
    requires done !! Below(w.own, p)
    modifies m, m.phys
    ensures Swept(m, w, done + Done(w.own, p, i + 1))
  {
    Next(m, w, done, p, i);
    NextSets(w, done, p, i);
    var e := EntryAt(Page(m.mem, t), i);
    if e.Entry? && !e.huge {
      DropPt(m, e.page, w, done + Done(w.own, p, i), p + [i]);
    }
  }

  /** A page-directory-pointer table and all below it; entries 1 to 3 of the first one are the kernel's and stay. */
  method DropPdpt(m: Memory, t: nat, first: bool, ghost w: World, ghost done: set<nat>, ghost p: Path)
    requires Sound(w) && Swept(m, w, done) && p in w.own && w.own[p] == t && |p| == 1 && done !! Below(w.own, p)
    requires first <==> p == [0]
    modifies m, m.phys
    ensures Swept(m, w, done + Below(w.own, p))
  {
    var i := 0;
    assert done + Done(w.own, p, 0) == done;
    while i < 512
      invariant 0 <= i <= 512 && Swept(m, w, done + Done(w.own, p, i))
    {
      DropPdptEntry(m, t, i, first, w, done, p);
      i := i + 1;
    }
    DropTable(m, t, w, done, p);
  }

  method DropPdptEntry(m: Memory, t: nat, i: nat, first: bool, ghost w: World, ghost done: set<nat>, ghost p: Path)
    requires Sound(w) && Swept(m, w, done + Done(w.own, p, i)) && p in w.own && w.own[p] == t && |p| == 1 && i < 512
    requires done !! Below(w.own, p) && (first <==> p == [0])
    modifies m, m.phys
    ensures Swept(m, w, done + Done(w.own, p, i + 1))
  {
    Next(m, w, done, p, i);
    NextSets(w, done, p, i);
    var e := EntryAt(Page(m.mem, t), i);
    if e.Entry? && !(first && 1 <= i <= 3) {
      DropPd(m, e.page, w, done + Done(w.own, p, i), p + [i]);
    }
  }

  method DropPml4Entry(m: Memory, t: nat, i: nat, ghost w: World)
    requires Sound(w) && Swept(m, w, Done(w.own, [], i)) && w.root == t && i < 256
    modifies m, m.phys
    ensures Swept(m, w, Done(w.own, [], i + 1))
  {
    assert {} + Done(w.own, [], i) == Done(w.own, [], i) && {} + Done(w.own, [], i + 1) == Done(w.own, [], i + 1);
    Next(m, w, {}, [], i);
    NextSets(w, {}, [], i);
    var e := EntryAt(Page(m.mem, t), i);
    if e.Entry? {
      assert [] + [i] == [i];
      DropPdpt(m, e.page, i == 0, w, Done(w.own, [], i), [i]);
    }
  }

  /** The upper half is not the address space's own. */
  lemma RootDone(w: World)
    requires Sound(w)
    ensures Done(w.own, [], 256) + {w.root} == w.own.Values && w.root !in Done(w.own, [], 256)
  {
    forall q | q in w.own && q != [] ensures q[0] < 256 {
      Prefix(w.own, w.root, q, 1);
      assert Child(w.own, q[..1]);
      assert q[..1][..0] == [];
    }
    assert Done(w.own, [], 256) == Done(w.own, [], 512);
    BelowIs(w.own, w.root, []);
    NotDone(w.own, [], 512, []);
    assert Below(w.own, []) == w.own.Values by {
      forall q | q in w.own ensures IsPrefix([], q) {}
      forall x | x in w.own.Values ensures x in Below(w.own, []) {
        var q :| q in w.own && w.own[q] == x;
        assert IsPrefix([], q);
      }
    }
  }

  method DropEntries(m: Memory, cr3: nat, ghost w: World)
    requires Sound(w) && Swept(m, w, {}) && w.root == cr3
    modifies m, m.phys
    ensures Swept(m, w, Done(w.own, [], 256))
  {
    var i := 0;
    assert Done(w.own, [], 0) == {};
    while i < 256
      invariant 0 <= i <= 256 && Swept(m, w, Done(w.own, [], i))
    {
      DropPml4Entry(m, cr3, i, w);
      i := i + 1;
    }
  }

  method DropAll(m: Memory, cr3: nat, ghost w: World)
    requires Sound(w) && Swept(m, w, {}) && w.root == cr3
    modifies m, m.phys
    ensures Swept(m, w, w.own.Values)
  {
    DropEntries(m, cr3, w);
    RootDone(w);
    Drop(m, cr3, w, Done(w.own, [], 256));
  }
}
