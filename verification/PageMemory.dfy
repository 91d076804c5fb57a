/** Physical pages with their contents as page tables, on top of the buddy allocator.
    A single-page view of the allocator: the pages that are free and the pages handed out one by one. */
module PageMemory {
  import opened Bits
  import opened BuddyTiling
  import opened BuddyAllocator

  /** A page-table entry: the page number and the flags of mm.c; bit 7 (PS) is huge. */
  datatype Entry = Absent | Entry(page: nat, huge: bool, write: bool, user: bool, exec: bool)

  /** A page of 512 entries; those not listed are zero. */
  type Table = map<nat, Entry>

  function EntryAt(t: Table, i: nat): Entry { if i in t then t[i] else Absent }

  function Page(mem: map<nat, Table>, p: nat): Table { if p in mem then mem[p] else map[] }

  lemma OneBlock(p: nat)
    ensures First(Block(p, 0)) == p && forall x: nat :: Has(Block(p, 0), x) <==> x == p
  {}

  /** A page is free exactly if it is in the pool and in no live block. */
  lemma CoverFree(free: set<Block>, live: set<Block>, pool: set<nat>, x: nat)
    requires Tiled(free + live, pool) && free !! live
    ensures x in Cover(free) <==> x in pool && !InSome(live, x)
  {
    CoverIs(free, x);
    FreeIs(free, live, pool, x);
  }

  /** Making one page live takes it from the free pages and nothing else. */
  lemma OneTaken(f: set<Block>, g: set<Block>, live: set<Block>, pool: set<nat>, p: nat)
    requires Tiled(f + live, pool) && f !! live
    requires Tiled(g + (live + {Block(p, 0)}), pool) && g !! (live + {Block(p, 0)}) && Block(p, 0) !in live
    ensures p in Cover(f) && Cover(g) == Cover(f) - {p}
  {
    OneBlock(p);
    WasFree(f, live, g, Block(p, 0), pool);
    CoverIs(f, p);
    forall x: nat ensures x in Cover(g) <==> x in Cover(f) && x != p {
      CoverFree(f, live, pool, x);
      CoverFree(g, live + {Block(p, 0)}, pool, x);
      assert InSome(live + {Block(p, 0)}, x) <==> InSome(live, x) || Has(Block(p, 0), x);
    }
  }

  lemma CoverNone(f: set<Block>)
    ensures Cover(f) == {} <==> f == {}
  {
    if f != {} {
      var b :| b in f;
      HasFirst(b);
      CoverIs(f, First(b));
    }
  }

  class Memory {
    const phys: PhysMemory
    var mem: map<nat, Table>

    /** The pages handed out one by one and not given back. */
    ghost var taken: set<nat>

    ghost predicate Valid()
      reads this`taken, phys
    {
      forall n: nat {:trigger Folded(n)} | Folded(n) :: phys.Valid() && forall p | p in taken :: Block(p, 0) in phys.live
    }

    ghost function Free(): set<nat>
      reads phys
    {
      Cover(phys.free)
    }

    constructor (a: PhysMemory)
      requires a.Valid()
      ensures Valid() && phys == a && taken == {}
    {
      phys, mem, taken := a, map[], {};
    }

    /** The counter free_pages is the number of free pages. */
    lemma Counted()
      requires Valid()
      ensures phys.freePages == |Free()|
    {
      assert Folded(0);
    }

    lemma TakenNotFree(p: nat)
      requires Valid() && p in taken
      ensures p !in Free() && p != 0
    {
      assert Folded(0);
      OneBlock(p);
      CoverFree(phys.free, phys.live, phys.pool, p);
      assert Has(Block(p, 0), p);
      assert InSome(phys.live, p);
      FreeIs(phys.free, phys.live, phys.pool, p);
    }

    /** amm_phys_alloc(0). The allocator keeps its links in free pages, so only the other pages are known to stay as they are. */
    method Alloc() returns (p: nat)
      requires Valid()
      modifies this, phys
      ensures Valid() && (p == 0 <==> old(Free()) == {})
      ensures p == 0 ==> Free() == old(Free()) && taken == old(taken)
      ensures p != 0 ==> p in old(Free()) && Free() == old(Free()) - {p} && p !in old(taken) && taken == old(taken) + {p}
      ensures forall x: nat | x !in old(Free()) :: Page(mem, x) == old(Page(mem, x))
    {
      assert Folded(0);
      ghost var f, live := phys.free, phys.live;
      ghost var h;
      CoverNone(f);
      p, h := phys.Alloc(0);
      if p != 0 {
        OneTaken(f, phys.free, live, phys.pool, p);
        taken := taken + {p};
      }
    }

    /** amm_phys_free(p, 0), of a page handed out by Alloc and not given back since. */
    method Release(p: nat)
      requires Valid() && p in taken
      modifies this, phys
      ensures Valid() && taken == old(taken) - {p} && Free() == old(Free()) + {p} && p !in old(Free())
      ensures forall x: nat | x !in Free() :: Page(mem, x) == old(Page(mem, x))
    {
      assert Folded(0);
      ghost var f, live := phys.free, phys.live;
      OneBlock(p);
      phys.Free(p, 0, Block(p, 0));
      assert live == phys.live + {Block(p, 0)};
      OneTaken(phys.free, f, phys.live, phys.pool, p);
      taken := taken - {p};
      mem := mem[p := Page(mem, p)[0 := Absent]];
    }

    /** k_memset of a whole page. */
    method Clear(p: nat)
      requires Valid()
      modifies this`mem
      ensures Page(mem, p) == map[] && forall x: nat | x != p :: Page(mem, x) == old(Page(mem, x))
    {
      mem := mem[p := map[]];
    }

    method Set(p: nat, i: nat, e: Entry)
      requires Valid() && i < 512
      modifies this`mem
      ensures Page(mem, p) == old(Page(mem, p))[i := e] && forall x: nat | x != p :: Page(mem, x) == old(Page(mem, x))
    {
      mem := mem[p := Page(mem, p)[i := e]];
    }
  }
}
