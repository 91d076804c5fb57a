/** Address spaces of kernel/mm/mm.c: created with the kernel's entries, filled page by page, and destroyed. */
module AddressSpace {
  import opened Bits
  import opened PageMemory
  import opened PageTables

  /** Only pages of the account were written. */
  ghost predicate Kept(was: map<nat, Table>, now: map<nat, Table>, account: set<nat>)
  {
    forall x: nat {:trigger Page(now, x)} | x !in account :: Page(now, x) == Page(was, x)
  }

  /** The same data pages at the same addresses, but for path k. */
  ghost predicate SameLeaves(was: Owned, now: Owned, k: Path)
  {
    forall q {:trigger q in now} | |q| == 4 && q != k :: (q in now <==> q in was) && (q in was && q in now ==> now[q] == was[q])
  }

  /** Tables, folded. */
  ghost predicate Wired(mem: map<nat, Table>, own: Owned, root: nat)
  {
    && [] in own && own[[]] == root
    && forall n: nat {:trigger Folded(n)} | Folded(n) :: Tables(mem, own, root)
  }

  lemma WiredIs(mem: map<nat, Table>, own: Owned, root: nat)
    ensures Wired(mem, own, root) <==> Tables(mem, own, root)
  {
    assert Folded(0);
  }

  lemma WiredGrow(mem: map<nat, Table>, now: map<nat, Table>, own: Owned, root: nat, p: Path, i: nat, e: Entry)
    requires Wired(mem, own, root) && p in own && |p| < 4 && i < 512 && !Shared(p, i) && Entered(mem, now, own, p, i, e)
    requires e.page !in own.Values
    ensures Wired(now, own[p + [i] := e.page], root)
    ensures p + [i] in own ==> own[p + [i] := e.page].Values == own.Values - {own[p + [i]]} + {e.page}
    ensures p + [i] !in own ==> own[p + [i] := e.page].Values == own.Values + {e.page}
  {
    WiredIs(mem, own, root);
    Grow(mem, now, own, root, p, i, e);
    WiredIs(now, own[p + [i] := e.page], root);
    if p + [i] in own { ValuesReplace(own, p + [i], e.page); } else { ValuesAdd(own, p + [i], e.page); }
  }

  lemma WiredStays(mem: map<nat, Table>, now: map<nat, Table>, own: Owned, root: nat)
    requires Wired(mem, own, root) && forall q | q in own :: Page(now, own[q]) == Page(mem, own[q])
    ensures Wired(now, own, root)
  {
    WiredIs(mem, own, root);
    Untouched(mem, now, own, root);
    WiredIs(now, own, root);
  }

  lemma WiredLink(mem: map<nat, Table>, own: Owned, root: nat, p: Path, i: nat)
    requires Wired(mem, own, root) && p in own && |p| < 4 && i < 512 && !Shared(p, i)
    ensures Link(mem, own, p, i)
  {
    WiredIs(mem, own, root);
  }

  lemma WiredApartFrom(mem: map<nat, Table>, own: Owned, root: nat, p: Path)
    requires Wired(mem, own, root) && p in own
    ensures forall q | q in own && q != p :: own[q] != own[p]
  {
    WiredIs(mem, own, root);
  }

  lemma WiredPrefix(mem: map<nat, Table>, own: Owned, root: nat, v: nat)
    requires Wired(mem, own, root)
    ensures PathOf(v) in own ==> TableOf(v) in own
    ensures TableOf(v) in own ==> [Index(v, 0), Index(v, 1)] in own
    ensures [Index(v, 0), Index(v, 1)] in own ==> [Index(v, 0)] in own
  {
    WiredIs(mem, own, root);
    ParentOwned(own, root, TableOf(v), Index(v, 3));
    ParentOwned(own, root, [Index(v, 0), Index(v, 1)], Index(v, 2));
    ParentOwned(own, root, [Index(v, 0)], Index(v, 1));
    assert TableOf(v) + [Index(v, 3)] == PathOf(v);
    assert [Index(v, 0), Index(v, 1)] + [Index(v, 2)] == TableOf(v);
    assert [Index(v, 0)] + [Index(v, 1)] == [Index(v, 0), Index(v, 1)];
  }

  lemma WiredTabs(mem: map<nat, Table>, own: Owned, root: nat, v: nat)
    requires Wired(mem, own, root)
    ensures PathOf(v) in own ==> Prefixes(v) <= own.Keys && Tabs(v) <= own.Keys
  {
    WiredPrefix(mem, own, root, v);
  }

  /** A second key to fold definitions with. */
  ghost predicate Wrapped(n: nat) { true }

  class Space {
    const m: Memory
    var cr3: nat

    /** The pages of the tables and of the data, by path. */
    ghost var own: Owned

    /** Pages taken for this address space that it can no longer give back. */
    ghost var lost: set<nat>

    ghost predicate Valid()
      reads this, m, m.phys
    {
      m.Valid() && Wired(m.mem, own, cr3) && own.Values <= m.taken && lost <= m.taken && lost !! own.Values
    }

    constructor (memory: Memory, root: nat, ghost o: Owned)
      requires memory.Valid() && Tables(memory.mem, o, root) && o.Values <= memory.taken
      ensures Valid() && m == memory && cr3 == root && own == o && lost == {}
    {
      m, cr3, own, lost := memory, root, o, {};
      WiredIs(memory.mem, o, root);
    }

    ghost function Account(): set<nat>
      reads this, m, m.phys
    {
      m.Free() + (own.Values + lost)
    }

    /** Pages taken by someone else. */
    ghost function Others(): set<nat>
      reads this, m
    {
      m.taken - (own.Values + lost)
    }

    /** A page of zeros. */
    method ZeroPage() returns (c: nat)
      requires Valid()
      modifies m, m.phys
      ensures Valid() && (c == 0 <==> old(m.Free()) == {})
      ensures c == 0 ==> m.Free() == old(m.Free()) && m.taken == old(m.taken)
      ensures c != 0 ==> c in old(m.Free()) && m.Free() == old(m.Free()) - {c} && m.taken == old(m.taken) + {c} && c !in old(m.taken)
      ensures c != 0 ==> Page(m.mem, c) == map[]
      ensures forall x: nat {:trigger Page(m.mem, x)} | x !in old(m.Free()) :: Page(m.mem, x) == Page(old(m.mem), x)
    {
      ghost var was := m.mem;
      OwnNotFree();
      c := m.Alloc();
      if c != 0 { m.Clear(c); }
      WiredStays(was, m.mem, own, cr3);
    }

    /** Entry i of the table at p is set to e; the data page that was there before is lost. */
    method Enter(t: nat, i: nat, e: Entry, ghost p: Path)
      requires Valid() && p in own && own[p] == t && |p| < 4 && i < 512 && !Shared(p, i)
      requires e.Entry? && !e.huge && e.page in Others() && (|p| < 3 ==> Open(e) && p + [i] !in own && Page(m.mem, e.page) == map[])
      modifies this`own, this`lost, m`mem
      ensures Valid() && own == old(own)[p + [i] := e.page]
      ensures lost == old(lost) + if p + [i] in old(own) then {old(own)[p + [i]]} else {}
      ensures own.Values + lost == old(own.Values + lost) + {e.page}
      ensures EntryAt(Page(m.mem, t), i) == e
      ensures forall x: nat {:trigger Page(m.mem, x)} | x != t :: Page(m.mem, x) == Page(old(m.mem), x)
    {
      ghost var was, k := m.mem, p + [i];
      m.Set(t, i, e);
      WiredApartFrom(was, own, cr3, p);
      WiredGrow(was, m.mem, own, cr3, p, i, e);
      if k in own { lost := lost + {own[k]}; }
      own := own[k := e.page];
    }

    /** A new table is hung into entry i of the table at p. */
    method NewTable(t: nat, i: nat, ghost p: Path) returns (c: nat)
      requires Valid() && p in own && own[p] == t && |p| < 3 && i < 512 && !Shared(p, i) && p + [i] !in own
      modifies this`own, this`lost, m, m.phys
      ensures Valid() && Account() == old(Account()) && Others() == old(Others()) && Kept(old(m.mem), m.mem, old(Account()))
      ensures (c == 0 <==> old(m.Free()) == {}) && (c == 0 ==> m.Free() == {}) && lost == old(lost)
      ensures own == if c == 0 then old(own) else old(own)[p + [i] := c]
    {
      ghost var pages, free, taken := own.Values + lost, m.Free(), m.taken;
      assert t in own.Values;
      c := ZeroPage();
      if c != 0 {
        Enter(t, i, Entry(c, false, true, true, true), p);
        Moved(free, taken, pages, c);
      }
    }

    static lemma Moved(free: set<nat>, taken: set<nat>, pages: set<nat>, c: nat)
      requires c in free && c !in taken
      ensures (free - {c}) + (pages + {c}) == free + pages && (taken + {c}) - (pages + {c}) == taken - pages
    {}

    lemma OwnNotFree()
      requires Valid()
      ensures forall q | q in own :: own[q] !in m.Free() && own[q] in m.taken && own[q] != 0
      ensures forall x | x in lost :: x !in m.Free()
    {
      forall x | x in m.taken ensures x !in m.Free() && x != 0 { m.TakenNotFree(x); }
      forall q | q in own ensures own[q] in m.taken { assert own[q] in own.Values; }
    }

    /** One level of pt_walk_alloc. */
    method Descend(t: nat, i: nat, ghost p: Path) returns (c: nat)
      requires Valid() && p in own && own[p] == t && |p| < 3 && i < 512 && !Shared(p, i)
      modifies this`own, this`lost, m, m.phys
      ensures Valid() && Account() == old(Account()) && Others() == old(Others()) && Kept(old(m.mem), m.mem, old(Account()))
      ensures lost == old(lost) && Extended(old(own), own, {p + [i]})
      ensures if c == 0 then m.Free() == {} && p + [i] !in own else p + [i] in own && own[p + [i]] == c
    {
      var e := EntryAt(Page(m.mem, t), i);
      WiredLink(m.mem, own, cr3, p, i);
      if e == Absent {
        c := NewTable(t, i, p);
      } else {
        c := e.page;
        OwnNotFree();
      }
    }

    /** pt_walk_alloc: the page table of a virtual page; 0 if memory ran out on the way. */
    method Walk(v: nat) returns (t: nat)
      requires Valid() && UserPage(v)
      modifies this`own, this`lost, m, m.phys
      ensures Valid() && Account() == old(Account()) && Others() == old(Others()) && Kept(old(m.mem), m.mem, old(Account()))
      ensures lost == old(lost) && Extended(old(own), own, Tabs(v))
      ensures if t == 0 then m.Free() == {} && TableOf(v) !in own else TableOf(v) in own && own[TableOf(v)] == t
    {
      var i, j, k := Index(v, 0), Index(v, 1), Index(v, 2);
      assert [] + [i] == [i] && [i] + [j] == [i, j] && [i, j] + [k] == TableOf(v);
      t := Descend(cr3, i, []);
      if t != 0 {
        t := Descend(t, j, [i]);
        if t != 0 {
          t := Descend(t, k, [i, j]);
        }
      }
      WiredPrefix(m.mem, own, cr3, v);
    }

    /** v is mapped to page pa with the given rights. */
    ghost predicate Mapped(v: nat, pa: nat, write: bool, exec: bool)
      reads this, m
    {
      && PathOf(v) in own && own[PathOf(v)] == pa && TableOf(v) in own
      && EntryAt(Page(m.mem, own[TableOf(v)]), Index(v, 3)) == Entry(pa, false, write, true, exec)
    }

    /** The last entry of the walk is written. */
    method Put(v: nat, t: nat, pa: nat, write: bool, exec: bool)
      requires Valid() && UserPage(v) && pa in Others() && TableOf(v) in own && own[TableOf(v)] == t
      modifies this`own, this`lost, m`mem
      ensures Valid() && Account() == old(Account()) + {pa} && Others() == old(Others()) - {pa}
      ensures Kept(old(m.mem), m.mem, old(Account())) && SameLeaves(old(own), own, PathOf(v))
      ensures Mapped(v, pa, write, exec) && lost == old(lost) + Hit(old(own), PathOf(v))
      ensures KeysWithin(old(own), own, {PathOf(v)})
    {
      assert TableOf(v) + [Index(v, 3)] == PathOf(v);
      assert t in own.Values;
      ghost var pages := own.Values + lost;
      Enter(t, Index(v, 3), Entry(pa, false, write, true, exec), TableOf(v));
      Given(m.Free(), m.taken, pages, own.Values + lost, pa);
    }

    /** A page that could not be mapped. */
    ghost method Lose(pa: nat)
      requires Valid() && pa in Others()
      modifies this`lost
      ensures Valid() && Account() == old(Account()) + {pa} && Others() == old(Others()) - {pa} && lost == old(lost) + {pa}
    {
      ghost var pages := own.Values + lost;
      lost := lost + {pa};
      assert own.Values + lost == pages + {pa};
      Given(m.Free(), m.taken, pages, own.Values + lost, pa);
    }

    static lemma LeavesStay(was: Owned, now: Owned, new_: set<Path>, k: Path)
      requires Extended(was, now, new_) && |k| == 4 && forall q | q in new_ :: |q| < 4
      ensures SameLeaves(was, now, k) && Hit(now, k) == Hit(was, k) && KeysWithin(was, now, new_)
    {}

    static ghost function Hit(o: Owned, k: Path): set<nat> { if k in o then {o[k]} else {} }

    static lemma Given(free: set<nat>, taken: set<nat>, pages: set<nat>, now: set<nat>, c: nat)
      requires now == pages + {c}
      ensures free + now == free + pages + {c} && taken - now == taken - pages - {c}
    {}

    /** map_page of a page taken for this purpose: no other address is mapped differently. Without a table the page is lost. */
    method MapPage(v: nat, pa: nat, write: bool, exec: bool) returns (ghost ok: bool)
      requires Valid() && UserPage(v) && pa in Others()
      modifies this`own, this`lost, m, m.phys
      ensures Valid() && Account() == old(Account()) + {pa} && Others() == old(Others()) - {pa}
      ensures Kept(old(m.mem), m.mem, old(Account())) && SameLeaves(old(own), own, PathOf(v))
      ensures ok ==> Mapped(v, pa, write, exec) && lost == old(lost) + Hit(old(own), PathOf(v))
      ensures !ok ==> Extended(old(own), own, Tabs(v)) && TableOf(v) !in own && lost == old(lost) + {pa} && m.Free() == {}
      ensures KeysWithin(old(own), own, Prefixes(v))
    {
      var t := Walk(v);
      ok := t != 0;
      LeavesStay(old(own), own, Tabs(v), PathOf(v));
      if t != 0 {
        Put(v, t, pa, write, exec);
      } else {
        Lose(pa);
      }
    }

    /** One level of amm_virt_to_kva. */
    method Follow(t: nat, i: nat, ghost p: Path) returns (found: bool, c: nat)
      requires Valid() && p in own && own[p] == t && |p| < 4 && i < 512 && !Shared(p, i)
      ensures (found <==> p + [i] in own) && (found ==> c == own[p + [i]])
    {
      WiredLink(m.mem, own, cr3, p, i);
      var e := EntryAt(Page(m.mem, t), i);
      found := e.Entry?;
      c := if e.Entry? then e.page else 0;
    }

    /** amm_virt_to_kva: the page a virtual page is mapped to, if it is. */
    method Lookup(v: nat) returns (found: bool, page: nat)
      requires Valid() && UserPage(v)
      ensures (found <==> PathOf(v) in own) && (found ==> page == own[PathOf(v)])
    {
      WiredPrefix(m.mem, own, cr3, v);
      ghost var i, j, k := Index(v, 0), Index(v, 1), Index(v, 2);
      assert [] + [i] == [i] && [i] + [j] == [i, j] && [i, j] + [k] == TableOf(v) && TableOf(v) + [Index(v, 3)] == PathOf(v);
      found, page := Follow(cr3, Index(v, 0), []);
      if !found { return; }
      found, page := Follow(page, Index(v, 1), [i]);
      if !found { return; }
      found, page := Follow(page, Index(v, 2), [i, j]);
      if !found { return; }
      found, page := Follow(page, Index(v, 3), TableOf(v));
    }

    method TakeAndMap(v: nat, write: bool, exec: bool) returns (r: bool, ghost full: bool, ghost page: nat)
      requires Valid() && UserPage(v)
      modifies this`own, this`lost, m, m.phys
      ensures Valid() && Account() == old(Account()) && Others() == old(Others()) && Kept(old(m.mem), m.mem, old(Account()))
      ensures SameLeaves(old(own), own, PathOf(v)) && (full ==> m.Free() == {}) && (!r ==> full && own == old(own) && lost == old(lost))
      ensures !full ==> PathOf(v) in own && own[PathOf(v)] in old(m.Free()) && Mapped(v, own[PathOf(v)], write, exec)
      ensures !full ==> Page(m.mem, own[PathOf(v)]) == map[]
      ensures !full ==> lost == old(lost) + Hit(old(own), PathOf(v))
      ensures full && r ==> TableOf(v) !in own && page !in old(m.taken) && lost == old(lost) + {page}
      ensures KeysWithin(old(own), own, if full then Tabs(v) else Prefixes(v)) && (!r <==> old(m.Free()) == {})
    {
      var pa := ZeroPage();
      r, full, page := pa != 0, true, pa;
      if pa != 0 {
        OwnNotFree();
        ghost var ok := MapPage(v, pa, write, exec);
        full := !ok;
      }
    }

    /** Free, owned and lost pages are counted. */
    lemma Sizes()
      requires Valid()
      ensures |Account()| == |m.Free()| + |own.Keys| + |lost|
    {
      WiredIs(m.mem, own, cr3);
      ValuesSize(own);
      OwnNotFree();
      forall x | x in own.Values ensures x !in m.Free() {
        var q :| q in own && own[q] == x;
      }
      assert |own.Values + lost| == |own.Values| + |lost|;
    }

    /** A zeroed page is taken and mapped at v, as amm_page_fault does once the region allows the access. false if there
        was no page; full if memory ran out on the way, which is exactly if fewer pages were free than are wanted. */
    method MapFresh(v: nat, write: bool, exec: bool) returns (r: bool, ghost full: bool)
      requires Valid() && UserPage(v)
      modifies this`own, this`lost, m, m.phys
      ensures Valid() && Account() == old(Account()) && Others() == old(Others()) && Kept(old(m.mem), m.mem, old(Account()))
      ensures SameLeaves(old(own), own, PathOf(v)) && (full ==> m.Free() == {}) && (!r ==> full && own == old(own) && lost == old(lost))
      ensures !full ==> PathOf(v) in own && own[PathOf(v)] in old(m.Free()) && Mapped(v, own[PathOf(v)], write, exec)
      ensures !full ==> Page(m.mem, own[PathOf(v)]) == map[]
      ensures !full ==> lost == old(lost) + Hit(old(own), PathOf(v))
      ensures full <==> |old(m.Free())| < |Wanted(old(own.Keys), v)|
      ensures !full ==> own.Keys == old(own.Keys) + Prefixes(v)
      ensures !full && PathOf(v) !in old(own) ==> |m.Free()| + |own.Keys| == old(|m.Free()| + |own.Keys|)
    {
      ghost var keys, free, gone := own.Keys, |m.Free()|, |lost|;
      WiredTabs(m.mem, own, cr3, v);
      Sizes();
      ghost var o, l, t := own, lost, m.taken;
      ghost var page;
      r, full, page := TakeAndMap(v, write, exec);
      Sizes();
      WiredTabs(m.mem, own, cr3, v);
      Settled(o, own, l, lost, t, page, v, r, full, free, |m.Free()|);
    }

    /** A fresh page at an address that is not mapped. */
    method MapNew(v: nat, write: bool, exec: bool) returns (r: bool, ghost full: bool)
      requires Valid() && UserPage(v) && PathOf(v) !in own
      modifies this`own, this`lost, m, m.phys
      ensures Valid() && Account() == old(Account()) && Others() == old(Others()) && Kept(old(m.mem), m.mem, old(Account()))
      ensures SameLeaves(old(own), own, PathOf(v)) && (!r ==> full) && (!full ==> PathOf(v) in own && lost == old(lost))
      ensures Paid(old(own.Keys), own.Keys, |old(m.Free())|, |m.Free()|, Prefixes(v), full)
    {
      ghost var keys, free := own.Keys, |m.Free()|;
      r, full := MapFresh(v, write, exec);
      FreshPaid(keys, own.Keys, free, |m.Free()|, v, full);
    }

    /** One page of amm_region_populate. */
    method PopulateOne(v: nat, write: bool, exec: bool) returns (r: bool, ghost full: bool)
      requires Valid() && UserPage(v)
      modifies this`own, this`lost, m, m.phys
      ensures Valid() && Account() == old(Account()) && Others() == old(Others()) && Kept(old(m.mem), m.mem, old(Account()))
      ensures LeavesKept(old(own), own) && SameLeaves(old(own), own, PathOf(v)) && (!r ==> full)
      ensures !full ==> PathOf(v) in own && lost == old(lost)
      ensures Paid(old(own.Keys), own.Keys, |old(m.Free())|, |m.Free()|, Prefixes(v), full)
    {
      r, full := true, false;
      WiredTabs(m.mem, own, cr3, v);
      PaidNothing(own.Keys, |m.Free()|, Prefixes(v));
      var found, _ := Lookup(v);
      if !found { r, full := MapNew(v, write, exec); }
    }

    /** What every step since the start g keeps. */
    ghost predicate Since(g: Start)
      reads this, m, m.phys
    {
      Valid() && Account() == g.account && Others() == g.others && Kept(g.mem, m.mem, g.account)
    }

    /** After i of the addresses from first on. */
    ghost predicate Filled(g: Start, first: nat, n: nat, i: nat, full: bool)
      reads this, m, m.phys
    {
      forall k: nat {:trigger Wrapped(k)} | Wrapped(k) ::
        && Since(g) && Grown(g.own, own, first, first + i) && (!full ==> lost == g.lost)
        && Spent(g.own.Keys, own.Keys, g.free, |m.Free()|, Span(first, n), i, full)
    }

    method PopulateNext(first: nat, n: nat, i: nat, write: bool, exec: bool, ghost g: Start, ghost full: bool) returns (r: bool, ghost now: bool)
      requires Filled(g, first, n, i, full) && i < n && UserPage(first + i)
      modifies this`own, this`lost, m, m.phys
      ensures Filled(g, first, n, i + 1, now) && (!r ==> now)
    {
      assert Wrapped(0);
      ghost var was, left := own, |m.Free()|;
      var v := first + i;
      ghost var out;
      r, out := PopulateOne(v, write, exec);
      now := full || out;
      SpentNext(g.own.Keys, was.Keys, own.Keys, g.free, left, |m.Free()|, Span(first, n), i, v, full, out, now);
      GrownNext(g.own, was, own, first, v, first + (i + 1));
    }

    /** The loop of amm_region_populate; false if there was no page for the last of i addresses. */
    method PopulateAll(first: nat, n: nat, write: bool, exec: bool, ghost g: Start) returns (r: bool, ghost full: bool, i: nat)
      requires Filled(g, first, n, 0, false) && forall v: nat {:trigger UserPage(v)} | first <= v < first + n :: UserPage(v)
      modifies this`own, this`lost, m, m.phys
      ensures i <= n && Filled(g, first, n, i, full) && (if r then i == n else full)
    {
      r, full, i := true, false, 0;
      while i < n && r
        invariant 0 <= i <= n && Filled(g, first, n, i, full) && (!r ==> full)
        decreases n - i
      {
        r, full := PopulateNext(first, n, i, write, exec, g, full);
        i := i + 1;
      }
    }

    /** The loop, from the state before. */
    method PopulateRun(first: nat, n: nat, write: bool, exec: bool) returns (r: bool, ghost full: bool)
      requires Valid() && forall v: nat {:trigger UserPage(v)} | first <= v < first + n :: UserPage(v)
      modifies this`own, this`lost, m, m.phys
      ensures Valid() && Account() == old(Account()) && Others() == old(Others()) && Kept(old(m.mem), m.mem, old(Account()))
      ensures LeavesKept(old(own), own) && LeavesWithin(old(own), own, first, first + n) && (!full ==> lost == old(lost))
      ensures SpannedBy(old(own.Keys), own.Keys, |old(m.Free())|, first, n, full) && (!r ==> full)
    {
      ghost var keys, free := own.Keys, |m.Free()|;
      SpentNone(keys, free, Span(first, n));
      GrownNone(own, first);
      var i;
      r, full, i := PopulateAll(first, n, write, exec, Start(m.mem, Account(), Others(), own, lost, free));
      assert Wrapped(0);
      GrownIs(old(own), own, first, i, n);
      SpentSpan(keys, own.Keys, free, |m.Free()|, first, n, i, full);
    }

    /** amm_region_populate: what was mapped stays, new pages are mapped in the range only, and all of the range is mapped
        exactly if as many pages are free as tables and pages of the range are missing. */
    method Populate(first: nat, n: nat, write: bool, exec: bool) returns (r: bool, page: nat, ghost full: bool)
      requires Valid() && forall v: nat {:trigger UserPage(v)} | first <= v < first + n :: UserPage(v)
      modifies this`own, this`lost, m, m.phys
      ensures Valid() && Account() == old(Account()) && Others() == old(Others()) && Kept(old(m.mem), m.mem, old(Account()))
      ensures LeavesKept(old(own), own) && LeavesWithin(old(own), own, first, first + n) && (!full ==> lost == old(lost))
      ensures SpannedBy(old(own.Keys), own.Keys, |old(m.Free())|, first, n, full)
      ensures !full && n > 0 ==> r && PathOf(first) in own && page == own[PathOf(first)]
    {
      r, page, full := false, 0, false;
      if n == 0 {
        SpannedByNone(own.Keys, |m.Free()|, first);
        return;
      }
      r, full := PopulateRun(first, n, write, exec);
      if r { r, page := Lookup(first); }
    }

    /** After i of the addresses vs. */
    ghost predicate Run(g: Start, vs: seq<nat>, i: nat, full: bool)
      reads this, m, m.phys
    {
      forall k: nat {:trigger Wrapped(k)} | Wrapped(k) ::
        && Since(g) && LeavesAre(own, vs, i)
        && (AllApart(vs) ==> Spent(g.own.Keys, own.Keys, g.free, |m.Free()|, vs, i, full) && (!full ==> lost == g.lost))
    }

    method MapNext(vs: seq<nat>, i: nat, ghost g: Start, ghost full: bool) returns (ghost now: bool)
      requires Run(g, vs, i, full) && i < |vs| && AllUser(vs)
      modifies this`own, this`lost, m, m.phys
      ensures Run(g, vs, i + 1, now)
    {
      assert Wrapped(0);
      ghost var was, left := own, |m.Free()|;
      ghost var out := MapOne(vs[i]);
      now := full || out;
      OneMore(was, own, vs, i);
      SpentNext(g.own.Keys, was.Keys, own.Keys, g.free, left, |m.Free()|, vs, i, vs[i], full, out, now);
    }

    method MapOne(v: nat) returns (ghost out: bool)
      requires Valid() && UserPage(v)
      modifies this`own, this`lost, m, m.phys
      ensures Valid() && Account() == old(Account()) && Others() == old(Others()) && Kept(old(m.mem), m.mem, old(Account()))
      ensures SameLeaves(old(own), own, PathOf(v))
      ensures PathOf(v) !in old(own) ==> Paid(old(own.Keys), own.Keys, |old(m.Free())|, |m.Free()|, Prefixes(v), out)
      ensures PathOf(v) !in old(own) && !out ==> lost == old(lost)
    {
      ghost var keys, free := own.Keys, |m.Free()|;
      var r;
      r, out := MapFresh(v, true, true);
      FreshPaid(keys, own.Keys, free, |m.Free()|, v, out);
    }

    method MapRun(vs: seq<nat>, ghost g: Start) returns (ghost full: bool)
      requires Run(g, vs, 0, false) && AllUser(vs)
      modifies this`own, this`lost, m, m.phys
      ensures Run(g, vs, |vs|, full)
    {
      full := false;
      var i: nat := 0;
      while i < |vs|
        invariant i <= |vs| && Run(g, vs, i, full)
      {
        full := MapNext(vs, i, g, full);
        i := i + 1;
      }
    }

    /** amm_vmap_destroy: everything the address space owns is given back once, and nothing else is written or freed. */
    method Destroy()
      requires Valid()
      modifies this, m, m.phys
      ensures m.Valid() && m.Free() == old(m.Free()) + old(own.Values) && m.taken == old(m.taken) - old(own.Values)
      ensures m.Free() == old(Account()) - old(lost) && cr3 == 0 && own == map[] && lost == old(lost)
      ensures Kept(old(m.mem), m.mem, m.Free())
    {
      ghost var w := World(m.Free(), m.taken, m.mem, own, cr3);
      WiredIs(m.mem, own, cr3);
      OwnNotFree();
      DropAll(m, cr3, w);
      cr3 := 0;
      own := map[];
    }
  }

  lemma WithinMore(was: Owned, now: Owned, first: nat, i: nat, n: nat)
    requires i <= n
    ensures LeavesWithin(was, now, first, first + i) ==> LeavesWithin(was, now, first, first + n)
  {
    forall q | q in now && Reached(q, first, first + i) ensures Reached(q, first, first + n) {
      var v: nat :| first <= v < first + i && PathOf(v) == q;
    }
  }

  /** The state at the start of a run of mappings. */
  datatype Start = Start(mem: map<nat, Table>, account: set<nat>, others: set<nat>, own: Owned, lost: set<nat>, free: nat)

  /** Every mapped page stays mapped to the same page. */
  ghost predicate LeavesKept(was: Owned, now: Owned)
  {
    forall q {:trigger q in was} | q in was && |q| == 4 :: q in now && now[q] == was[q]
  }

  ghost predicate Reached(q: Path, lo: nat, hi: nat) { exists v: nat :: lo <= v < hi && PathOf(v) == q }

  /** New pages are mapped from lo to hi only. */
  ghost predicate LeavesWithin(was: Owned, now: Owned, lo: nat, hi: nat)
  {
    forall q {:trigger q in now} | q in now && |q| == 4 && q !in was :: Reached(q, lo, hi)
  }

  /** Both, folded. */
  ghost predicate Grown(was: Owned, now: Owned, lo: nat, hi: nat)
  {
    forall n: nat {:trigger Folded(n)} | Folded(n) :: LeavesKept(was, now) && LeavesWithin(was, now, lo, hi)
  }

  lemma GrownNone(own: Owned, lo: nat)
    ensures Grown(own, own, lo, lo)
  {}

  lemma GrownNext(first: Owned, was: Owned, now: Owned, lo: nat, v: nat, end: nat)
    requires lo <= v && end == v + 1 && LeavesKept(was, now) && SameLeaves(was, now, PathOf(v))
    ensures Grown(first, was, lo, v) ==> Grown(first, now, lo, end)
  {
    assert Folded(0);
    if Grown(first, was, lo, v) {
      forall q | q in now && |q| == 4 && q !in first ensures Reached(q, lo, end) {
        if q != PathOf(v) { var w: nat :| lo <= w < v && PathOf(w) == q; }
      }
    }
  }

  lemma GrownIs(was: Owned, now: Owned, first: nat, i: nat, n: nat)
    requires Grown(was, now, first, first + i) && i <= n
    ensures LeavesKept(was, now) && LeavesWithin(was, now, first, first + n)
  {
    assert Folded(0);
    WithinMore(was, now, first, i, n);
  }

  /** The tables on the way to v, and with them its data page. */
  ghost function Tabs(v: nat): set<Path> { {[Index(v, 0)], [Index(v, 0), Index(v, 1)], TableOf(v)} }
  ghost function Prefixes(v: nat): set<Path> { Tabs(v) + {PathOf(v)} }

  /** What has to be taken to map a fresh page at v: the missing tables and the page. */
  ghost function Wanted(keys: set<Path>, v: nat): set<Path> { Tabs(v) - keys + {PathOf(v)} }

  lemma WantedSome(keys: set<Path>, v: nat)
    ensures |Wanted(keys, v)| > 0
  {
    assert PathOf(v) in Wanted(keys, v);
  }

  lemma WantedIs(keys: set<Path>, v: nat)
    ensures PathOf(v) !in keys ==> Wanted(keys, v) == Prefixes(v) - keys
  {}

  lemma Joined(a: set<Path>, b: set<Path>)
    ensures |a + b| == |a| + |b - a|
  {
    assert a + b == a + (b - a);
  }

  /** The walk and the page are had exactly if enough pages were free. */
  lemma Enough(keys: set<Path>, now: set<Path>, v: nat, free: nat, left: nat, ok: bool)
    requires PathOf(v) in keys ==> Tabs(v) <= keys
    requires left + |now| == free - 1 + |keys| + if ok && PathOf(v) !in keys then 1 else 0
    requires if ok then now == keys + Prefixes(v) else left == 0 && keys <= now <= keys + Tabs(v) && TableOf(v) !in now
    ensures ok <==> free >= |Wanted(keys, v)|
  {
    assert PathOf(v) !in Tabs(v);
    assert Wanted(keys, v) - {PathOf(v)} == Tabs(v) - keys;
    Joined(keys, Tabs(v));
    if ok {
      EnoughDone(keys, now, v, free, left);
    } else {
      Smaller(now, keys + Tabs(v), TableOf(v));
    }
  }

  /** The counts after TakeAndMap. */
  lemma Settled(o: Owned, now: Owned, l: set<nat>, lost: set<nat>, t: set<nat>, page: nat, v: nat, r: bool, full: bool, free: nat, left: nat)
    requires KeysWithin(o, now, if full then Tabs(v) else Prefixes(v)) && left + |now.Keys| + |lost| == free + |o.Keys| + |l|
    requires PathOf(v) in o ==> Tabs(v) <= o.Keys
    requires l <= t && l !! o.Values && (!r ==> full && free == 0) && (full ==> left == 0)
    requires full && r ==> TableOf(v) !in now && page !in t && lost == l + {page}
    requires !full ==> Prefixes(v) <= now.Keys && lost == l + Space.Hit(o, PathOf(v))
    ensures full <==> free < |Wanted(o.Keys, v)|
    ensures !full ==> now.Keys == o.Keys + Prefixes(v) && (PathOf(v) !in o ==> left + |now.Keys| == free + |o.Keys|)
  {
    if !r {
      WantedSome(o.Keys, v);
    } else {
      if full {
        assert |lost| == |l| + 1;
      } else {
        assert now.Keys == o.Keys + Prefixes(v);
        if PathOf(v) in o {
          assert o[PathOf(v)] in o.Values;
          assert |lost| == |l| + 1;
        }
      }
      Enough(o.Keys, now.Keys, v, free, left, !full);
    }
  }

  lemma EnoughDone(keys: set<Path>, now: set<Path>, v: nat, free: nat, left: nat)
    requires PathOf(v) in keys ==> Tabs(v) <= keys
    requires left + |now| == free - 1 + |keys| + if PathOf(v) !in keys then 1 else 0
    requires now == keys + Prefixes(v)
    ensures free >= |Wanted(keys, v)|
  {
    Joined(keys, Prefixes(v));
    if PathOf(v) in keys {
      assert Wanted(keys, v) == {PathOf(v)};
    } else {
      WantedIs(keys, v);
    }
  }

  lemma Smaller(a: set<Path>, b: set<Path>, x: Path)
    requires a <= b && x in b && x !in a
    ensures |a| < |b|
  {
    Joined(a, b);
    assert x in b - a;
    assert a + b == b;
  }

  /** The virtual pages from first on. */
  ghost function Span(first: nat, n: nat): (vs: seq<nat>)
    ensures |vs| == n && forall i | 0 <= i < n :: vs[i] == first + i
  {
    seq(n, i => first + i)
  }

  /** The tables and pages that the first n addresses need. */
  ghost function Paths(vs: seq<nat>, n: nat): set<Path>
    requires n <= |vs|
  {
    if n == 0 then {} else Paths(vs, n - 1) + Prefixes(vs[n - 1])
  }

  lemma {:induction false} PathsGrow(vs: seq<nat>, i: nat, n: nat)
    requires i <= n <= |vs|
    ensures Paths(vs, i) <= Paths(vs, n)
  {
    if i < n { PathsGrow(vs, i, n - 1); }
  }

  lemma {:induction false} PathsHave(vs: seq<nat>, n: nat)
    requires n <= |vs|
    ensures forall i | 0 <= i < n :: PathOf(vs[i]) in Paths(vs, n)
  {
    if n > 0 { PathsHave(vs, n - 1); }
  }

  lemma SpanHave(first: nat, n: nat)
    ensures forall v: nat {:trigger PathOf(v)} | first <= v < first + n :: PathOf(v) in Paths(Span(first, n), n)
  {
    var vs := Span(first, n);
    PathsHave(vs, n);
    forall v: nat | first <= v < first + n ensures PathOf(v) in Paths(vs, n) { assert vs[v - first] == v; }
  }

  /** Memory ran out exactly if fewer pages were free than tables and pages of the range were missing; if not, all of the
      range is mapped now. */
  ghost predicate SpannedBy(keys: set<Path>, now: set<Path>, free: nat, first: nat, n: nat, full: bool)
  {
    && (full <==> free < |Paths(Span(first, n), n) - keys|)
    && (!full ==> now == keys + Paths(Span(first, n), n))
    && (!full ==> forall v: nat {:trigger PathOf(v)} | first <= v < first + n :: PathOf(v) in now)
  }

  lemma SpannedByNone(keys: set<Path>, free: nat, first: nat)
    ensures SpannedBy(keys, keys, free, first, 0, false)
  {
    assert keys + {} == keys;
  }

  /** The account at the end of a range. */
  lemma SpentSpan(keys: set<Path>, now: set<Path>, free: nat, left: nat, first: nat, n: nat, i: nat, full: bool)
    requires Spent(keys, now, free, left, Span(first, n), i, full) && (i == n || full)
    ensures SpannedBy(keys, now, free, first, n, full)
  {
    var vs := Span(first, n);
    SpentFull(keys, now, free, left, vs, i);
    if !full {
      SpentAll(keys, now, free, left, vs, full);
      SpanHave(first, n);
    }
  }

  /** The account after i addresses, from free pages and keys at the start. */
  ghost predicate Spent(keys: set<Path>, now: set<Path>, free: nat, left: nat, vs: seq<nat>, i: nat, full: bool)
  {
    forall n: nat {:trigger Folded(n)} | Folded(n) ::
      && i <= |vs|
      && (full ==> free < |Paths(vs, |vs|) - keys|)
      && (!full ==> now == keys + Paths(vs, i) && left + |now| == free + |keys|)
  }

  lemma SpentNone(keys: set<Path>, free: nat, vs: seq<nat>)
    ensures Spent(keys, keys, free, free, vs, 0, false)
  {
    assert keys + {} == keys;
  }

  /** The paths of one are had, out of what was free before, unless that is too little. */
  ghost predicate Paid(was: set<Path>, now: set<Path>, before: nat, left: nat, one: set<Path>, out: bool)
  {
    forall n: nat {:trigger Folded(n)} | Folded(n) ::
      && (out <==> before < |one - was|)
      && (!out ==> now == was + one && left + |now| == before + |was|)
  }

  lemma PaidNothing(keys: set<Path>, free: nat, one: set<Path>)
    ensures one <= keys ==> Paid(keys, keys, free, free, one, false)
  {
    assert one <= keys ==> one - keys == {} && keys + one == keys;
  }

  lemma SpentNext(keys: set<Path>, was: set<Path>, now: set<Path>, free: nat, before: nat, left: nat, vs: seq<nat>, i: nat, v: nat, full: bool, out: bool, either: bool)
    requires i < |vs| && vs[i] == v && either == (full || out)
    ensures Spent(keys, was, free, before, vs, i, full) && Paid(was, now, before, left, Prefixes(v), out) ==>
      Spent(keys, now, free, left, vs, i + 1, either)
  {
    assert Folded(0);
    if !full && Spent(keys, was, free, before, vs, i, full) && Paid(was, now, before, left, Prefixes(vs[i]), out) {
      PathsNext(keys, was, vs, i);
      if out { SpentOut(keys, was, free, before, Prefixes(vs[i]), Paths(vs, i + 1), Paths(vs, |vs|)); }
    }
  }

  lemma PathsNext(keys: set<Path>, was: set<Path>, vs: seq<nat>, i: nat)
    requires i < |vs| && was == keys + Paths(vs, i)
    ensures was + Prefixes(vs[i]) == keys + Paths(vs, i + 1) && Paths(vs, i + 1) <= Paths(vs, |vs|)
  {
    PathsGrow(vs, i + 1, |vs|);
  }

  lemma SpentOut(keys: set<Path>, was: set<Path>, free: nat, before: nat, one: set<Path>, some: set<Path>, all: set<Path>)
    requires before + |was| == free + |keys| && before < |one - was| && was + one == keys + some && some <= all
    ensures free < |all - keys|
  {
    Joined(was, one);
    Joined(keys, some);
    Joined(some - keys, all - keys);
    assert (some - keys) + (all - keys) == all - keys;
  }

  lemma SpentFull(keys: set<Path>, now: set<Path>, free: nat, left: nat, vs: seq<nat>, i: nat)
    ensures Spent(keys, now, free, left, vs, i, true) ==> free < |Paths(vs, |vs|) - keys|
  {
    assert Folded(0);
  }

  lemma FreshPaid(keys: set<Path>, now: set<Path>, before: nat, left: nat, v: nat, full: bool)
    requires full <==> before < |Wanted(keys, v)|
    requires PathOf(v) !in keys && !full ==> now == keys + Prefixes(v) && left + |now| == before + |keys|
    ensures PathOf(v) !in keys ==> Paid(keys, now, before, left, Prefixes(v), full)
  {
    WantedIs(keys, v);
  }

  lemma SpentAll(keys: set<Path>, now: set<Path>, free: nat, left: nat, vs: seq<nat>, full: bool)
    requires Spent(keys, now, free, left, vs, |vs|, full)
    ensures full <==> free < |Paths(vs, |vs|) - keys|
    ensures !full ==> now == keys + Paths(vs, |vs|)
  {
    assert Folded(0);
    Joined(keys, Paths(vs, |vs|));
  }

  function TableOf(v: nat): Path { [Index(v, 0), Index(v, 1), Index(v, 2)] }

  /** Paths are only added, and only those of new_. */
  ghost predicate KeysWithin(was: Owned, now: Owned, new_: set<Path>)
  {
    (forall q | q in was :: q in now) && forall q | q in now :: q in was || q in new_
  }

  /** Nothing but the tables of new_ was added. */
  ghost predicate Extended(was: Owned, now: Owned, new_: set<Path>)
  {
    && (forall q | q in was :: q in now && now[q] == was[q])
    && (forall q | q in now :: q in was || q in new_)
  }

  // ---------- creation ----------

  const MAX_VMAPS := 4096

  /** Entry i of the table an entry leads to. */
  function Through(mem: map<nat, Table>, e: Entry, i: nat): Entry { if e.Entry? then EntryAt(Page(mem, e.page), i) else Absent }

  /** The kernel's entries: of its PML4, of its first PDPT and of its first page directory. */
  function Pml4(mem: map<nat, Table>, kernel: nat, i: nat): Entry { EntryAt(Page(mem, kernel), i) }
  function Pdpt(mem: map<nat, Table>, kernel: nat, i: nat): Entry { Through(mem, Pml4(mem, kernel, 0), i) }
  function Pd(mem: map<nat, Table>, kernel: nat, i: nat): Entry { Through(mem, Pdpt(mem, kernel, 0), i) }

  /** The kernel's tables are not free, and its low memory from 64 MB on is mapped by 2 MB pages. */
  ghost predicate KernelTables(mem: map<nat, Table>, kernel: nat, free: set<nat>)
  {
    && kernel !in free
    && (Pml4(mem, kernel, 0).Entry? ==> Pml4(mem, kernel, 0).page !in free)
    && (Pdpt(mem, kernel, 0).Entry? ==> Pdpt(mem, kernel, 0).page !in free)
    && forall i: nat {:trigger Pd(mem, kernel, i)} | 32 <= i < 512 :: Foreign(Pd(mem, kernel, i))
  }

  method CopyEntries(m: Memory, from: nat, to: nat, lo: nat, hi: nat)
    requires m.Valid() && from != to && lo <= hi <= 512
    modifies m`mem
    ensures forall i: nat :: EntryAt(Page(m.mem, to), i) == EntryAt(Page(old(m.mem), if lo <= i < hi then from else to), i)
    ensures forall x: nat {:trigger Page(m.mem, x)} | x != to :: Page(m.mem, x) == Page(old(m.mem), x)
  {
    ghost var source, target := Page(m.mem, from), Page(m.mem, to);
    var j := lo;
    while j < hi
      invariant lo <= j <= hi && m.Valid()
      invariant forall i: nat {:trigger EntryAt(Page(m.mem, to), i)} ::
        EntryAt(Page(m.mem, to), i) == if lo <= i < j then EntryAt(source, i) else EntryAt(target, i)
      invariant forall x: nat {:trigger Page(m.mem, x)} | x != to :: Page(m.mem, x) == Page(old(m.mem), x)
    {
      ghost var before := Page(m.mem, to);
      var e := EntryAt(Page(m.mem, from), j);
      m.Set(to, j, e);
      forall i: nat ensures EntryAt(Page(m.mem, to), i) == if i == j then e else EntryAt(before, i) {}
      j := j + 1;
    }
  }

  /** The three tables an address space starts with; the upper half of the first is the kernel's. */
  method TakeThree(m: Memory, kernel: nat) returns (ok: bool, a: nat, b: nat, c: nat)
    requires m.Valid() && kernel !in m.Free()
    modifies m, m.phys
    ensures m.Valid() && m.Free() <= old(m.Free()) && (ok <==> |old(m.Free())| >= 3) && Kept(old(m.mem), m.mem, old(m.Free()))
    ensures ok ==> m.Free() == old(m.Free()) - {a, b, c} && m.taken == old(m.taken) + {a, b, c}
    ensures ok ==> {a, b, c} <= old(m.Free()) && {a, b, c} !! old(m.taken) && a != b && b != c && a != c
    ensures ok ==> |m.Free()| + 3 == |old(m.Free())|
    ensures ok ==> Page(m.mem, b) == map[] && Page(m.mem, c) == map[]
    ensures ok ==> forall i: nat :: EntryAt(Page(m.mem, a), i) == if 256 <= i < 512 then Pml4(old(m.mem), kernel, i) else Absent
  {
    ok, b, c := false, 0, 0;
    ghost var f, t := m.Free(), m.taken;
    a := TakeRoot(m, kernel);
    if a == 0 { return; }
    ok, b, c := TakeTwo(m);
    ThreeGone(f, t, a, b, c);
    if ok { ThreeLess(f, a, b, c); }
  }

  lemma ThreeLess(f: set<nat>, a: nat, b: nat, c: nat)
    requires {a, b, c} <= f && a != b && b != c && a != c
    ensures |f| == |f - {a, b, c}| + 3
  {
    assert f == (f - {a, b, c}) + {a, b, c};
  }

  lemma ThreeGone(f: set<nat>, t: set<nat>, a: nat, b: nat, c: nat)
    ensures a in f ==> |f| == |f - {a}| + 1
    ensures f - {a} - {b, c} == f - {a, b, c} && t + {a} + {b, c} == t + {a, b, c}
    ensures a in f && {b, c} <= f - {a} ==> {a, b, c} <= f && a != b && a != c
    ensures a !in t && {b, c} !! t + {a} ==> {a, b, c} !! t
  {}

  /** A PML4 with the kernel's upper half. */
  method TakeRoot(m: Memory, kernel: nat) returns (a: nat)
    requires m.Valid() && kernel !in m.Free()
    modifies m, m.phys
    ensures m.Valid() && (a == 0 <==> old(m.Free()) == {}) && Kept(old(m.mem), m.mem, old(m.Free()))
    ensures if a == 0 then m.Free() == old(m.Free()) else a in old(m.Free()) && m.Free() == old(m.Free()) - {a}
    ensures a != 0 ==> m.taken == old(m.taken) + {a} && a !in old(m.taken)
    ensures a != 0 ==> forall i: nat :: EntryAt(Page(m.mem, a), i) == if 256 <= i < 512 then Pml4(old(m.mem), kernel, i) else Absent
  {
    a := m.Alloc();
    if a != 0 {
      m.Clear(a);
      CopyEntries(m, kernel, a, 256, 512);
    }
  }

  lemma OneGone(f: set<nat>, t: set<nat>, a: nat, rest: set<nat>)
    requires a in f
    ensures |f| == |f - {a}| + 1 && f - {a} - rest == f - ({a} + rest) && t + {a} + rest == t + ({a} + rest)
  {}

  /** Two pages of zeros. */
  method TakeTwo(m: Memory) returns (ok: bool, b: nat, c: nat)
    requires m.Valid()
    modifies m, m.phys
    ensures m.Valid() && m.Free() <= old(m.Free()) && (ok <==> |old(m.Free())| >= 2) && Kept(old(m.mem), m.mem, old(m.Free()))
    ensures ok ==> b != c && {b, c} <= old(m.Free()) && {b, c} !! old(m.taken)
    ensures ok ==> m.Free() == old(m.Free()) - {b, c} && m.taken == old(m.taken) + {b, c}
    ensures ok ==> Page(m.mem, b) == map[] && Page(m.mem, c) == map[]
  {
    ghost var f, t := m.Free(), m.taken;
    b := m.Alloc();
    c := m.Alloc();
    ok := b != 0 && c != 0;
    if b != 0 {
      OneGone(f, t, b, {c});
      assert {b} + {c} == {b, c};
    }
    if ok {
      m.Clear(b);
      m.Clear(c);
    }
  }

  /** What entry i of the first PDPT of an address space with page directory c is to be. */
  function SecondLevel(mem: map<nat, Table>, kernel: nat, c: nat, i: nat): Entry
  {
    if i == 0 then Entry(c, false, true, true, true) else if i <= 3 then Pdpt(mem, kernel, i) else Absent
  }

  /** Everything but the kernel's upper half is put in. */
  method Fill(m: Memory, kernel: nat, a: nat, b: nat, c: nat)
    requires m.Valid() && KernelTables(m.mem, kernel, {a, b, c}) && a != b && b != c && a != c
    requires Page(m.mem, b) == map[] && Page(m.mem, c) == map[]
    modifies m`mem
    ensures forall i: nat :: EntryAt(Page(m.mem, a), i) == if i == 0 then Entry(b, false, true, true, true) else EntryAt(Page(old(m.mem), a), i)
    ensures forall i: nat :: EntryAt(Page(m.mem, b), i) == SecondLevel(old(m.mem), kernel, c, i)
    ensures forall i: nat :: EntryAt(Page(m.mem, c), i) == if 32 <= i < 512 then Pd(old(m.mem), kernel, i) else Absent
    ensures Kept(old(m.mem), m.mem, {a, b, c})
  {
    ghost var was := m.mem;
    m.Set(a, 0, Entry(b, false, true, true, true));
    m.Set(b, 0, Entry(c, false, true, true, true));
    var e := EntryAt(Page(m.mem, kernel), 0);
    if e.Entry? {
      var p := e.page;
      CopyEntries(m, p, b, 1, 4);
      var d := EntryAt(Page(m.mem, p), 0);
      if d.Entry? {
        CopyEntries(m, d.page, c, 32, 512);
      }
    }
  }

  /** The tables of a new address space. */
  ghost function First3(): set<Path> { {[], [0], [0, 0]} }

  ghost function Three(a: nat, b: nat, c: nat): Owned { map[[] := a, [0] := b, [0, 0] := c] }

  /** The entries of the three tables of a new address space. */
  ghost predicate Laid(mem: map<nat, Table>, kernel: nat, now: map<nat, Table>, a: nat, b: nat, c: nat)
  {
    && (forall i: nat {:trigger EntryAt(Page(now, a), i)} | i < 512 :: EntryAt(Page(now, a), i) ==
          if i == 0 then Entry(b, false, true, true, true) else if i < 256 then Absent else Pml4(mem, kernel, i))
    && (forall i: nat {:trigger EntryAt(Page(now, b), i)} :: EntryAt(Page(now, b), i) == SecondLevel(mem, kernel, c, i))
    && (forall i: nat {:trigger EntryAt(Page(now, c), i)} :: EntryAt(Page(now, c), i) == if 32 <= i < 512 then Pd(mem, kernel, i) else Absent)
  }

  lemma LaidLink(mem: map<nat, Table>, kernel: nat, now: map<nat, Table>, a: nat, b: nat, c: nat, p: Path, i: nat)
    requires Laid(mem, kernel, now, a, b, c) && p in Three(a, b, c) && i < 512 && !Shared(p, i)
    ensures Link(now, Three(a, b, c), p, i)
  {
    if p == [] {
      assert p + [i] == [i];
    } else if p == [0] {
      assert p + [i] == [0, i];
    } else {
      assert |p + [i]| == 3;
    }
  }

  lemma LaidTables(mem: map<nat, Table>, kernel: nat, now: map<nat, Table>, a: nat, b: nat, c: nat)
    requires a != b && b != c && a != c && Laid(mem, kernel, now, a, b, c)
    requires forall i: nat {:trigger Pd(mem, kernel, i)} | 32 <= i < 512 :: Foreign(Pd(mem, kernel, i))
    ensures Tables(now, Three(a, b, c), a)
  {
    var o := Three(a, b, c);
    forall p, i: nat | p in o && |p| < 4 && i < 512 && !Shared(p, i) ensures Link(now, o, p, i) {
      LaidLink(mem, kernel, now, a, b, c, p, i);
    }
    ThreeRooted(a, b, c);
    LaidWindow(mem, kernel, now, a, b, c);
  }

  lemma LaidWindow(mem: map<nat, Table>, kernel: nat, now: map<nat, Table>, a: nat, b: nat, c: nat)
    requires Laid(mem, kernel, now, a, b, c)
    requires forall i: nat {:trigger Pd(mem, kernel, i)} | 32 <= i < 512 :: Foreign(Pd(mem, kernel, i))
    ensures Window(now, Three(a, b, c))
  {
    forall i: nat | 32 <= i < 512 ensures Foreign(EntryAt(Page(now, c), i)) { assert Foreign(Pd(mem, kernel, i)); }
  }

  lemma ThreeRooted(a: nat, b: nat, c: nat)
    requires a != b && b != c && a != c
    ensures Rooted(Three(a, b, c), a) && Single(Three(a, b, c))
  {
    var o := Three(a, b, c);
    assert [0][..0] == [] && [0, 0][..1] == [0];
    forall p | p in o && p != [] ensures Child(o, p) {}
  }

  lemma ThreeValues(a: nat, b: nat, c: nat)
    ensures Three(a, b, c).Values == {a, b, c}
  {
    var o := Three(a, b, c);
    assert o[[]] == a && o[[0]] == b && o[[0, 0]] == c;
  }

  /** amm_vmap_create: a new address space with nothing mapped and the kernel's entries, unless the pool of 4096 is used
      up or fewer than three pages are free. */
  method Create(m: Memory, kernel: nat, used: nat) returns (s: Space?)
    requires m.Valid() && KernelTables(m.mem, kernel, m.Free())
    modifies m, m.phys
    ensures s == null <==> used >= MAX_VMAPS || |old(m.Free())| < 3
    ensures m.Valid() && m.Free() <= old(m.Free()) && Kept(old(m.mem), m.mem, old(m.Free()))
    ensures s != null ==> fresh(s) && s.m == m && s.Valid() && s.lost == {} && (forall q | q in s.own :: |q| < 3)
    ensures s != null ==> s.Account() == old(m.Free()) && s.Others() == old(m.taken)
    ensures s != null ==> s.own.Keys == First3() && |m.Free()| + 3 == |old(m.Free())|
    ensures s != null ==> Inherits(old(m.mem), kernel, m.mem, s.own)
  {
    if used >= MAX_VMAPS { return null; }
    ghost var was, free, taken := m.mem, m.Free(), m.taken;
    var ok, a, b, c := TakeThree(m, kernel);
    if !ok { return null; }
    s := Build(m, kernel, a, b, c, was, free, taken);
  }

  method Build(m: Memory, kernel: nat, a: nat, b: nat, c: nat, ghost was: map<nat, Table>, ghost free: set<nat>, ghost taken: set<nat>)
    returns (s: Space)
    requires m.Valid() && KernelTables(was, kernel, free) && Kept(was, m.mem, free) && a != b && b != c && a != c
    requires m.Free() == free - {a, b, c} && m.taken == taken + {a, b, c} && {a, b, c} <= free && {a, b, c} !! taken
    requires Page(m.mem, b) == map[] && Page(m.mem, c) == map[]
    requires forall i: nat :: EntryAt(Page(m.mem, a), i) == if 256 <= i < 512 then Pml4(was, kernel, i) else Absent
    modifies m`mem
    ensures m.Valid() && Kept(was, m.mem, free)
    ensures fresh(s) && s.m == m && s.Valid() && s.lost == {} && (forall q | q in s.own :: |q| < 3)
    ensures s.Account() == free && s.Others() == taken && Inherits(was, kernel, m.mem, s.own)
    ensures s.own.Keys == First3()
  {
    Lay(m, kernel, a, b, c, was, free);
    s := Found(m, kernel, a, b, c, was);
    assert {a, b, c} + {} == {a, b, c};
  }

  method Found(m: Memory, kernel: nat, a: nat, b: nat, c: nat, ghost was: map<nat, Table>) returns (s: Space)
    requires m.Valid() && Laid(was, kernel, m.mem, a, b, c) && a != b && b != c && a != c && {a, b, c} <= m.taken
    requires forall i: nat {:trigger Pd(was, kernel, i)} | 32 <= i < 512 :: Foreign(Pd(was, kernel, i))
    ensures fresh(s) && s.m == m && s.Valid() && s.lost == {} && s.own == Three(a, b, c) && s.own.Values == {a, b, c}
    ensures Inherits(was, kernel, m.mem, s.own)
  {
    LaidTables(was, kernel, m.mem, a, b, c);
    ThreeValues(a, b, c);
    s := new Space(m, a, Three(a, b, c));
  }

  method Lay(m: Memory, kernel: nat, a: nat, b: nat, c: nat, ghost was: map<nat, Table>, ghost free: set<nat>)
    requires m.Valid() && KernelTables(was, kernel, free) && Kept(was, m.mem, free) && {a, b, c} <= free && a != b && b != c && a != c
    requires Page(m.mem, b) == map[] && Page(m.mem, c) == map[]
    requires forall i: nat :: EntryAt(Page(m.mem, a), i) == if 256 <= i < 512 then Pml4(was, kernel, i) else Absent
    modifies m`mem
    ensures Laid(was, kernel, m.mem, a, b, c) && Kept(was, m.mem, free)
  {
    KernelStays(was, m.mem, kernel, free, {a, b, c});
    Fill(m, kernel, a, b, c);
  }

  /** The kernel's part of the tables. */
  ghost predicate Inherits(was: map<nat, Table>, kernel: nat, now: map<nat, Table>, own: Owned)
  {
    && [] in own && [0] in own && [0, 0] in own
    && (forall i: nat | 256 <= i < 512 :: EntryAt(Page(now, own[[]]), i) == Pml4(was, kernel, i))
    && (forall i: nat | 1 <= i <= 3 :: EntryAt(Page(now, own[[0]]), i) == Pdpt(was, kernel, i))
    && (forall i: nat | 32 <= i < 512 :: EntryAt(Page(now, own[[0, 0]]), i) == Pd(was, kernel, i))
  }

  lemma KernelStays(was: map<nat, Table>, now: map<nat, Table>, kernel: nat, free: set<nat>, tables: set<nat>)
    requires KernelTables(was, kernel, free) && Kept(was, now, free) && tables <= free
    ensures KernelTables(now, kernel, tables)
    ensures forall i: nat {:trigger Pdpt(now, kernel, i)} :: Pdpt(now, kernel, i) == Pdpt(was, kernel, i)
    ensures forall i: nat {:trigger Pd(now, kernel, i)} :: Pd(now, kernel, i) == Pd(was, kernel, i)
  {
    assert Page(now, kernel) == Page(was, kernel);
    forall i: nat ensures Pdpt(now, kernel, i) == Pdpt(was, kernel, i) {}
    forall i: nat ensures Pd(now, kernel, i) == Pd(was, kernel, i) {}
  }

  // ---------- whole runs ----------

  /** What one address space does leaves the tables of another one as they are. */
  lemma Bystander(was: map<nat, Table>, now: map<nat, Table>, account: set<nat>, own: Owned, root: nat)
    requires Wired(was, own, root) && Kept(was, now, account) && own.Values !! account
    ensures Wired(now, own, root)
  {
    forall q | q in own ensures Page(now, own[q]) == Page(was, own[q]) { assert own[q] in own.Values; }
    WiredStays(was, now, own, root);
  }

  ghost predicate Distinct(vs: seq<nat>) { forall i, j | 0 <= i < j < |vs| :: PathOf(vs[i]) != PathOf(vs[j]) }

  /** The data pages are those of the first n addresses. */
  ghost predicate LeavesAre(own: Owned, vs: seq<nat>, n: nat)
  {
    forall m: nat {:trigger Folded(m)} | Folded(m) ::
      forall q {:trigger q in own} | q in own && |q| == 4 :: exists i | 0 <= i < n && i < |vs| :: PathOf(vs[i]) == q
  }

  /** Distinct, folded. */
  ghost predicate AllApart(vs: seq<nat>) { forall m: nat {:trigger Folded(m)} | Folded(m) :: Distinct(vs) }

  lemma NoLeaves(own: Owned, vs: seq<nat>)
    requires forall q | q in own :: |q| < 3
    ensures LeavesAre(own, vs, 0) && (Distinct(vs) ==> AllApart(vs))
  {}

  ghost predicate AllUser(vs: seq<nat>)
  {
    forall k: nat {:trigger Wrapped(k)} | Wrapped(k) :: forall i | 0 <= i < |vs| :: UserPage(vs[i])
  }

  /** Fresh pages at all of vs: nothing is lost if as many pages are free as tables and pages are missing. */
  method MapEach(s: Space, vs: seq<nat>)
    requires s.Valid() && s.lost == {} && (forall q | q in s.own :: |q| < 3) && forall i | 0 <= i < |vs| :: UserPage(vs[i])
    modifies s`own, s`lost, s.m, s.m.phys
    ensures s.Valid() && s.Account() == old(s.Account()) && s.Others() == old(s.Others())
    ensures Kept(old(s.m.mem), s.m.mem, old(s.Account()))
    ensures Distinct(vs) && |old(s.m.Free())| >= |Paths(vs, |vs|) - old(s.own.Keys)| ==>
      s.lost == {} && s.own.Keys == old(s.own.Keys) + Paths(vs, |vs|)
  {
    ghost var keys, free := s.own.Keys, |s.m.Free()|;
    SpentNone(keys, free, vs);
    NoLeaves(s.own, vs);
    ghost var full := s.MapRun(vs, Start(s.m.mem, s.Account(), s.Others(), s.own, s.lost, free));
    assert Wrapped(0);
    if Distinct(vs) { SpentAll(keys, s.own.Keys, free, |s.m.Free()|, vs, full); }
  }

  lemma OneMore(was: Owned, now: Owned, vs: seq<nat>, i: nat)
    requires i < |vs| && SameLeaves(was, now, PathOf(vs[i]))
    ensures LeavesAre(was, vs, i) ==> LeavesAre(now, vs, i + 1)
    ensures LeavesAre(was, vs, i) && AllApart(vs) ==> PathOf(vs[i]) !in was
  {
    assert Folded(0);
    if LeavesAre(was, vs, i) { OneMoreLeaf(was, now, vs, i); }
  }

  lemma OneMoreLeaf(was: Owned, now: Owned, vs: seq<nat>, i: nat)
    requires i < |vs| && LeavesAre(was, vs, i) && SameLeaves(was, now, PathOf(vs[i]))
    ensures LeavesAre(now, vs, i + 1) && (Distinct(vs) ==> PathOf(vs[i]) !in was)
  {
    assert Folded(0);
    forall q | q in now && |q| == 4 ensures exists j | 0 <= j < i + 1 && j < |vs| :: PathOf(vs[j]) == q {
      if q != PathOf(vs[i]) {
        var j :| 0 <= j < i && PathOf(vs[j]) == q;
      }
    }
  }

  /** A whole life: created, any pages mapped at distinct user addresses, destroyed. If there are as many free pages as the
      address space needs tables and pages, exactly the pages that were free before are free again. In any case nothing but
      free pages was written. */
  method Lifetime(m: Memory, kernel: nat, used: nat, vs: seq<nat>)
    requires m.Valid() && KernelTables(m.mem, kernel, m.Free()) && forall i | 0 <= i < |vs| :: UserPage(vs[i])
    modifies m, m.phys
    ensures m.Valid() && Kept(old(m.mem), m.mem, old(m.Free())) && m.Free() <= old(m.Free())
    ensures used < MAX_VMAPS && Distinct(vs) && |old(m.Free())| >= |First3() + Paths(vs, |vs|)| ==>
      m.Free() == old(m.Free()) && m.taken == old(m.taken) && m.phys.freePages == old(m.phys.freePages)
  {
    m.Counted();
    Joined(First3(), Paths(vs, |vs|));
    FirstThree();
    var s := Create(m, kernel, used);
    if s != null { Live(s, vs); }
    m.Counted();
  }

  /** What follows creation. */
  method Live(s: Space, vs: seq<nat>)
    requires s.Valid() && s.lost == {} && (forall q | q in s.own :: |q| < 3) && forall i | 0 <= i < |vs| :: UserPage(vs[i])
    modifies s, s.m, s.m.phys
    ensures s.m.Valid() && s.m.Free() <= old(s.Account()) && Kept(old(s.m.mem), s.m.mem, old(s.Account()))
    ensures Distinct(vs) && |old(s.m.Free())| >= |Paths(vs, |vs|) - old(s.own.Keys)| ==>
      s.m.Free() == old(s.Account()) && s.m.taken == old(s.Others())
  {
    MapEach(s, vs);
    s.Destroy();
  }

  lemma FirstThree()
    ensures |First3()| == 3
  {
    assert [0] != [0, 0];
  }
}
