/** Editing the page tables in place through the recursive directory entry: `virt_mm_map_addr`,
    `virt_mm_addr_unmap` and `virt_mm_addr_range_unmap` of `kernel/memory/virtual.c`. */
module Paging {
  import opened Wrappers
  import opened PageTables

  /** The address of frame `f`. */
  function Addr(f: nat): Word
    requires f < 0x8_0000
  {
    Word(false, f, 0)
  }

  lemma AddrFrame(f: nat)
    requires f < 0x8_0000
    ensures Frame(Addr(f)) == f
  {
  }

  class AddressSpace {
    var mem: Memory
    var free: set<nat>
    // the frame of the active directory
    const root: nat

    constructor (mem: Memory, root: nat, free: set<nat>)
      requires Tables(mem, root, free)
      ensures this.mem == mem && this.root == root && this.free == free
    {
      this.mem, this.root, this.free := mem, root, free;
    }

    ghost predicate Ok()
      reads this
    {
      Tables(mem, root, free)
    }

    /** Page `v` can be accessed, and shows frame `f`. */
    ghost predicate At(v: nat, f: nat)
      reads this
    {
      Walk(mem, root, v) == Some(f) && f in mem
    }

    method Load(v: nat, k: nat) returns (w: Word)
      requires Walk(mem, root, v).Some? && Walk(mem, root, v).value in mem && k < ENTRIES
      ensures w == mem[Walk(mem, root, v).value][k]
    {
      w := mem[Walk(mem, root, v).value][k];
    }

    method Store(v: nat, k: nat, w: Word)
      requires Walk(mem, root, v).Some? && Walk(mem, root, v).value in mem && k < ENTRIES
      modifies this`mem
      ensures mem == Put(old(mem), Walk(old(mem), root, v).value, k, w)
    {
      mem := Put(mem, Walk(mem, root, v).value, k, w);
    }

    /** `memset(page, 0, 4096)` */
    method Clear(v: nat)
      requires Walk(mem, root, v).Some? && Walk(mem, root, v).value in mem
      modifies this`mem
      ensures mem == old(mem)[Walk(old(mem), root, v).value := Blank()]
    {
      mem := mem[Walk(mem, root, v).value := Blank()];
    }

    /** `memcpy(to, from, 4096)` */
    method Copy(to: nat, from: nat)
      requires Walk(mem, root, to).Some? && Walk(mem, root, to).value in mem
      requires Walk(mem, root, from).Some? && Walk(mem, root, from).value in mem
      modifies this`mem
      ensures mem == old(mem)[Walk(old(mem), root, to).value := old(mem)[Walk(old(mem), root, from).value]]
    {
      mem := mem[Walk(mem, root, to).value := mem[Walk(mem, root, from).value]];
    }

    /** `phys_mm_block_alloc`: some free frame, which is not free any more. */
    method Alloc() returns (f: nat)
      requires free != {}
      modifies this`free
      ensures f in old(free) && free == old(free) - {f}
    {
      f :| f in free;
      free := free - {f};
    }

    /** The first half of `virt_mm_map_addr`: a blank table for page `v` if it has none. */
    method EnsureTable(dir: nat, v: nat, flags: bv12)
      requires Ok() && At(dir, root) && v < WINDOW && flags & PRESENT == PRESENT
      requires Present(mem[root][DirIndex(v)]) || free != {}
      modifies this`mem, this`free
      ensures TableReady(old(mem), old(free), mem, free, root, v)
      ensures DirFlagged(old(mem), mem, root, v, flags)
    {
      hide Tables, Entry, Frame, TableReady, Touched;
      InWindow(v);
      TableFacts();
      var pde := Load(dir, DirIndex(v));
      if !Present(pde) {
        ghost var mem0, free0 := mem, free;
        var f := Alloc();
        EntryLow(mem0, root, free0, v);
        var e := FrameSet(FlagSet(pde, flags), Addr(f));
        FlagsStay(pde, Addr(f), flags);
        FlagsJoined(pde, flags, Addr(f));
        FrameSetRight(FlagSet(pde, flags), Addr(f));
        StillActive(mem0, root, free0, dir, v, f, e);
        EnteredFor(mem0, root, free0, v, f, e);
        Store(dir, DirIndex(v), e);
        Clear(WINDOW + DirIndex(v));
      } else {
        ReadyAlready(mem, root, free, v);
      }
    }

    lemma TableFacts()
      requires Ok()
      ensures root in mem && root !in free
      ensures forall f :: f in free ==> f < 0x8_0000 && f in mem && Frame(Addr(f)) == f
    {
    }

    /** `virt_mm_map_addr` of the page-aligned address of page `v`.  In the flat view page `v`
        translates to the given frame and every other page as before. */
    method MapAddr(dir: nat, physical: Word, v: nat, flags: bv12)
      requires Ok() && At(dir, root) && v < WINDOW && flags & PRESENT == PRESENT && !physical.top
      requires Present(mem[root][DirIndex(v)]) || free != {}
      modifies this`mem, this`free
      ensures Ok()
      ensures MapDone(old(mem), old(free), mem, free, root, v,
                      FrameSet(FlagSet(Entry(old(mem), root, v), flags), physical))
      ensures EntryFlagged(old(mem), mem, root, v, flags, physical)
      ensures DirFlagged(old(mem), mem, root, v, flags)
      ensures Flat(mem, root) == Flat(old(mem), root)[v := Frame(physical)]
    {
      hide Tables, Entry, Frame, TableReady, Touched, MapDone, Flat, FrameSet, FlagSet,
          EntryFlagged, DirFlagged;
      EnsureTable(dir, v, flags);
      ghost var mem0, free0, mem1 := old(mem), old(free), mem;
      ReadyTable(mem0, free0, mem1, free, root, v);
      TableShown(mem1, root, free, v);
      var e := Load(WINDOW + DirIndex(v), TblIndex(v));
      var w := FrameSet(FlagSet(e, flags), physical);
      Written(mem0, free0, root, v, physical, flags);
      MappedIn(mem0, free0, mem1, free, root, v, w);
      Store(WINDOW + DirIndex(v), TblIndex(v), w);
      MapDoneFacts(mem0, free0, mem, free, root, v, w);
      EntryFlags(mem0, mem, root, v, flags, physical);
      DirFlagsKept(mem0, mem1, mem, root, v, flags);
      FlatAfterMap(mem0, mem, root, v);
    }

    /** `virt_mm_addr_unmap` */
    method Unmap(dir: nat, v: nat)
      requires Ok() && At(dir, root) && v < WINDOW
      modifies this`mem
      ensures Ok() && UnmapDone(old(mem), free, mem, root, v)
      ensures Flat(mem, root) == Flat(old(mem), root) - {v}
    {
      hide Tables, Entry, Frame, Touched, UnmapDone, Flat;
      InWindow(v);
      TableFacts();
      ghost var mem0 := mem;
      var pde := Load(dir, DirIndex(v));
      if Present(pde) {
        TableShown(mem, root, free, v);
        var e := Load(WINDOW + DirIndex(v), TblIndex(v));
        if Present(e) {
          MappedOut(mem, free, root, v);
          Store(WINDOW + DirIndex(v), TblIndex(v), NO);
        } else {
          NotMapped(mem, free, root, v);
        }
      } else {
        NoTable(mem, root, v);
        NotMapped(mem, free, root, v);
      }
      UnmapDoneFacts(mem0, free, mem, root, v);
      FlatAfterUnmap(mem0, mem, root, v, v + 1);
    }

    /** `virt_mm_addr_range_unmap` of the pages from `start` up to `end`: exactly these lose their
        translation. */
    method RangeUnmap(dir: nat, start: nat, end: nat)
      requires Ok() && At(dir, root) && dir < WINDOW && end <= WINDOW && !(start <= dir < end)
      modifies this`mem
      ensures Ok() && SameBut(old(mem), mem, root, start, end)
      ensures Flat(mem, root) == Without(Flat(old(mem), root), start, end)
    {
      hide Tables, Entry, Frame, Touched, UnmapDone;
      var v := start;
      while v < end
        invariant start <= v && (v <= end || v == start) && Ok() && At(dir, root)
        invariant SameBut(old(mem), mem, root, start, end)
        invariant Flat(mem, root) == Without(Flat(old(mem), root), start, v)
      {
        ghost var mem0 := mem;
        Unmap(dir, v);
        UnmapDoneFacts(mem0, free, mem, root, v);
        v := v + 1;
      }
    }
  }
}
