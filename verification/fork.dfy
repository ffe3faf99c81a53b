/** `virt_mm_fork_dir` of `kernel/memory/virtual.c`. */
module Fork {
  import opened Wrappers
  import opened PageTables
  import opened Paging
  import opened ForkSpec

  /** The innermost step of a fork: a fresh frame gets the contents of the frame in entry `src`, by
      way of two temporary mappings. */
  method CopyPage(space: AddressSpace, dir: nat, src: Word, cur: nat) returns (f: nat)
    requires space.Ok() && space.At(dir, space.root) && dir < WINDOW && !src.top
    requires PageFrame(space.mem, space.root, space.free, Frame(src))
    requires KERNEL * 1024 <= cur && cur + 2 <= WINDOW && Unmapped(space.mem, space.root, cur)
    requires |space.free| >= 1 + Missing(space.mem, space.root)
    modifies space`mem, space`free
    ensures space.Ok() && Kept(old(space.mem), old(space.free), space.mem, space.free, space.root)
    ensures SameWalks(old(space.mem), space.mem, space.root, 0, 0)
    ensures f in old(space.free) && f < 0x8_0000 && PageFrame(space.mem, space.root, space.free, f)
    ensures space.mem[f] == old(space.mem)[Frame(src)]
    ensures |space.free| - Missing(space.mem, space.root) == |old(space.free)| - 1 - Missing(old(space.mem), space.root)
  {
    hide Tables, Kept, SameWalks, PageFrame, Missing, MapDone, Touched, Entry, Walk, Flat, Step, Frame, Unmapped;
    ghost var root, mem0, free0 := space.root, space.mem, space.free;
    f := space.Alloc();
    Allocated(mem0, root, free0, f);
    UnmappedAt(mem0, root, cur, dir);
    MapKernel(space, dir, src, cur, RWU);
    ghost var mem1, free1 := space.mem, space.free;
    StepFacts(mem0, free0 - {f}, mem1, free1, root, cur, cur + 1);
    MapKernel(space, dir, Addr(f), cur + 1, RWU);
    ghost var mem2, free2 := space.mem, space.free;
    StepFacts(mem1, free1, mem2, free2, root, cur + 1, cur + 2);
    AddrFrame(f);
    StepTwice(mem0, free0 - {f}, mem1, free1, mem2, free2, root, cur, cur + 1, cur + 2);
    BothShown(mem0, free0, mem1, mem2, free2, root, f, Frame(src), cur);
    FilledAfter(mem0, free0, f, mem2, free2, root, cur, cur + 2, mem0[Frame(src)]);
    space.Copy(cur + 1, cur);
    ghost var mem3 := space.mem;
    WalkSame(mem0, mem3, root, cur, cur + 2, dir);
    UnmapTemp(space, dir, cur);
    ghost var mem4 := space.mem;
    UnmapTemp(space, dir, cur + 1);
    StepTwice(mem3, free2, mem4, free2, space.mem, free2, root, cur, cur + 1, cur + 2);
    StepFacts(mem4, free2, space.mem, free2, root, cur + 1, cur + 2);
    CopiedBack(mem0, free0, mem3, mem4, space.mem, free2, root, f, cur);
  }

  /** A mapping in the kernel's half. */
  method MapKernel(space: AddressSpace, dir: nat, physical: Word, v: nat, flags: bv12)
    requires space.Ok() && space.At(dir, space.root) && dir < WINDOW && dir != v
    requires !physical.top && flags & PRESENT == PRESENT
    requires KERNEL * 1024 <= v < WINDOW && |space.free| >= Missing(space.mem, space.root)
    modifies space`mem, space`free
    ensures Step(old(space.mem), old(space.free), space.mem, space.free, space.root, v, v + 1)
    ensures Walk(space.mem, space.root, v) == Some(Frame(physical))
    ensures SameBut(old(space.mem), space.mem, space.root, v, v + 1)
    ensures EntryFlagged(old(space.mem), space.mem, space.root, v, flags, physical)
    ensures space.Ok() && space.At(dir, space.root)
  {
    hide Tables, Kept, SameWalks, SameBut, Missing, MapDone, Touched, Entry, Walk, Flat, Step, Frame, FrameSet, FlagSet,
        EntryFlagged, DirFlagged;
    ghost var root, mem0, free0 := space.root, space.mem, space.free;
    EnoughFrames(mem0, root, free0, v);
    space.MapAddr(dir, physical, v, flags);
    MapDoneFacts(mem0, free0, space.mem, space.free, root, v,
                 FrameSet(FlagSet(Entry(mem0, root, v), flags), physical));
    KernelMapped(mem0, free0, space.mem, space.free, root, v, physical, flags);
    StepFacts(mem0, free0, space.mem, space.free, root, v, v + 1);
    WalkSame(mem0, space.mem, root, v, v + 1, dir);
  }

  method UnmapTemp(space: AddressSpace, dir: nat, v: nat)
    requires space.Ok() && space.At(dir, space.root) && dir < WINDOW && dir != v
    requires KERNEL * 1024 <= v < WINDOW
    modifies space`mem
    ensures Step(old(space.mem), space.free, space.mem, space.free, space.root, v, v + 1)
    ensures Walk(space.mem, space.root, v) == None
    ensures space.Ok() && space.At(dir, space.root)
  {
    hide Tables, Kept, SameWalks, Missing, UnmapDone, Touched, Entry, Walk, Flat, Step, Frame;
    ghost var root, mem0, free0 := space.root, space.mem, space.free;
    space.TableFacts();
    space.Unmap(dir, v);
    UnmapStep(mem0, free0, space.mem, root, v);
    StepFacts(mem0, free0, space.mem, space.free, root, v, v + 1);
    WalkSame(mem0, space.mem, root, v, v + 1, dir);
  }

  /** One turn of the outer loop: the table of directory entry `i` is copied, page by page. */
  method ForkTable(space: AddressSpace, dir: nat, i: nat, cur: nat, ghost own0: map<nat, nat>)
      returns (t: nat, next: nat, ghost own: map<nat, nat>)
    requires space.Ok() && space.At(dir, space.root) && dir < WINDOW
    requires i < KERNEL && space.root in space.mem && Present(space.mem[space.root][i]) &&
             Frame(space.mem[space.root][i]) in space.mem
    requires TableSane(space.mem, space.root, space.free, space.mem[Frame(space.mem[space.root][i])])
    requires KERNEL * 1024 <= cur && Unmapped(space.mem, space.root, cur) && Apart(own0, space.free)
    requires cur + 1 + 2 * Count(space.mem[Frame(space.mem[space.root][i])], 0) <= WINDOW
    requires |space.free| >= 1 + Count(space.mem[Frame(space.mem[space.root][i])], 0) + Missing(space.mem, space.root)
    modifies space`mem, space`free
    ensures TableDone(old(space.mem), old(space.free), own0, old(space.mem[Frame(space.mem[space.root][i])]),
                      space.mem, space.free, own,
                      space.root, i * 1024, t)
    ensures next == cur + 1 + 2 * Count(old(space.mem[Frame(space.mem[space.root][i])]), 0) && t < 0x8_0000
  {
    hide Tables, Kept, SameWalks, PageFrame, Missing, Entry, Walk, Flat, Step, Frame, Unmapped, Inner, Copied,
        TableSane, Apart, Count;
    ghost var root, mem0, free0 := space.root, space.mem, space.free;
    ghost var p := mem0[Frame(mem0[root][i])];
    t := space.Alloc();
    Allocated(mem0, root, free0, t);
    AddrFrame(t);
    UnmappedAt(mem0, root, cur, dir);
    MapKernel(space, dir, Addr(t), cur, RWU);
    InnerStart(mem0, free0, own0, p, space.mem, space.free, root, i, t, cur);
    StepFacts(mem0, free0 - {t}, space.mem, space.free, root, cur, cur + 1);
    space.Clear(cur);
    own, next := own0[t := WINDOW + i], cur + 1;
    var k := 0;
    while k < ENTRIES
      invariant k <= ENTRIES
      invariant Inner(mem0, free0, own0, p, space.mem, space.free, own, root, i * 1024, t, cur, next, k)
    {
      InnerFacts(mem0, free0, own0, p, space.mem, space.free, own, root, i * 1024, t, cur, next, k);
      ParentShown(mem0, free0, space.mem, space.free, root, i);
      var w := space.Load(WINDOW + i, k);
      if Present(w) {
        ghost var mem1, free1 := space.mem, space.free;
        InnerRoom(mem0, free0, own0, p, mem1, free1, own, root, i * 1024, t, cur, next, k);
        WalkSame(mem0, mem1, root, cur, cur + 1, dir);
        var f := CopyPage(space, dir, w, next);
        InnerCopy(mem0, free0, own0, p, mem1, free1, own, root, i * 1024, t, cur, next, k, space.mem, space.free, f);
        space.Store(cur, k, ChildWord(f));
        own, next := own[f := i * 1024 + k], next + 2;
      } else {
        InnerSkip(mem0, free0, own0, p, space.mem, space.free, own, root, i * 1024, t, cur, next, k);
      }
      k := k + 1;
    }
    InnerFacts(mem0, free0, own0, p, space.mem, space.free, own, root, i * 1024, t, cur, next, k);
    ghost var mem2 := space.mem;
    WalkSame(mem0, mem2, root, cur, cur + 1, dir);
    UnmapTemp(space, dir, cur);
    InnerEnd(mem0, free0, own0, p, mem2, space.free, own, root, i * 1024, t, cur, next, space.mem);
  }

  lemma InnerFacts(mem0: Memory, free0: set<nat>, own0: map<nat, nat>, p: Page, mem: Memory, free: set<nat>,
                   own: map<nat, nat>, root: nat, base: nat, t: nat, cur: nat, next: nat, k: nat)
    requires Inner(mem0, free0, own0, p, mem, free, own, root, base, t, cur, next, k)
    ensures Tables(mem, root, free) && Kept(mem0, free0, mem, free, root) && SameWalks(mem0, mem, root, cur, cur + 1)
    ensures Walk(mem, root, cur) == Some(t) && root in mem && mem.Keys == mem0.Keys && t in own && t in mem
    ensures t in free0
  {
  }

  /** The outer loop of `virt_mm_fork_dir`, which fills the user half of the new directory at `page`,
      whose frame is `r`. */
  method ForkUser(space: AddressSpace, dir: nat, page: nat, cur: nat, ghost r: nat)
      returns (next: nat, ghost own: map<nat, nat>)
    requires space.Ok() && space.At(dir, space.root) && space.At(page, r) && dir < WINDOW && page < WINDOW &&
             r < 0x8_0000
    requires PageFrame(space.mem, space.root, space.free, r) && forall j :: 0 <= j < KERNEL ==> space.mem[r][j] == NO
    requires space.root in space.mem && UserSane(space.mem, space.root, space.free + {r})
    requires KERNEL * 1024 <= cur && Unmapped(space.mem, space.root, cur)
    requires cur + ScratchFrom(space.mem, space.root, 0) <= WINDOW
    requires |space.free| >= FramesFrom(space.mem, space.root, 0) + Missing(space.mem, space.root)
    modifies space`mem, space`free
    ensures Outer(old(space.mem), old(space.free) + {r}, space.mem, space.free, own, space.root, r, cur, next, KERNEL)
  {
    hide Tables, Kept, SameWalks, PageFrame, Missing, Entry, Walk, Flat, Frame, Unmapped, Outer, TableSane, UserSane,
        Apart, Count, TableDone, ScratchFrom, FramesFrom, HasTable, TableOf;
    ghost var root, mem0, free0 := space.root, space.mem, space.free;
    Reserved(mem0, root, free0, r);
    OuterStart(mem0, free0, root, r, cur);
    own, next := map[], cur;
    var i := 0;
    while i < KERNEL
      invariant i <= KERNEL
      invariant Outer(mem0, free0 + {r}, space.mem, space.free, own, root, r, cur, next, i)
    {
      ghost var mem1, free1, own1 := space.mem, space.free, own;
      OuterFacts(mem0, free0 + {r}, mem1, free1, own, root, r, cur, next, i);
      WalkSame(mem0, mem1, root, 0, 0, dir);
      WalkSame(mem0, mem1, root, 0, 0, page);
      var w := space.Load(dir, i);
      if Present(w) {
        OuterRoom(mem0, free0 + {r}, mem1, free1, own, root, r, cur, next, i);
        Shown(mem1, root, i);
        var t, n;
        t, n, own := ForkTable(space, dir, i, next, own);
        OuterCopy(mem0, free0 + {r}, mem1, free1, own1, root, r, cur, next, i, space.mem, space.free, own, t, page);
        space.Store(page, i, ChildWord(t));
        next := n;
      } else {
        OuterSkip(mem0, free0 + {r}, mem1, free1, own, root, r, cur, next, i);
      }
      i := i + 1;
    }
  }

  lemma OuterFacts(mem0: Memory, freeR: set<nat>, mem: Memory, free: set<nat>, own: map<nat, nat>, root: nat, r: nat,
                   cur: nat, next: nat, i: nat)
    requires Outer(mem0, freeR, mem, free, own, root, r, cur, next, i)
    ensures Tables(mem, root, free) && root in mem && r in mem && SameWalks(mem0, mem, root, 0, 0)
    ensures Apart(own, free)
    ensures i < KERNEL ==> mem[root][i] == mem0[root][i]
  {
  }

  lemma Shown(mem: Memory, root: nat, i: nat)
    requires root in mem && i < ENTRIES && HasTable(mem, root, i)
    ensures Present(mem[root][i]) && Frame(mem[root][i]) in mem && TableOf(mem, root, i) == mem[Frame(mem[root][i])]
  {
  }

  /** `virt_mm_phys_addr_get`: the whole table entry of page `v`, read through the window; of a page of
      the window itself that is a directory entry. */
  method PhysAddrGet(space: AddressSpace, v: nat) returns (w: Word)
    requires space.Ok() && v < WINDOW + ENTRIES && space.root in space.mem
    requires v < WINDOW ==> Present(space.mem[space.root][DirIndex(v)])
    ensures w == Entry(space.mem, space.root, v)
    ensures v >= WINDOW ==> w == space.mem[space.root][v - WINDOW]
  {
    hide Tables, Entry, Frame;
    if v < WINDOW {
      TableShown(space.mem, space.root, space.free, v);
    } else {
      DirectoryShown(space.mem, space.root, space.free, v - WINDOW);
    }
    w := space.Load(WINDOW + DirIndex(v), TblIndex(v));
  }

  /** The second half of `virt_mm_addr_create`: the cleared directory at `page` gets the kernel's
      entries and an entry for itself. */
  method FillDir(space: AddressSpace, page: nat, ghost r: nat)
    requires space.Ok() && space.At(page, r) && page < WINDOW && space.root in space.mem
    requires PageFrame(space.mem, space.root, space.free, r) && space.mem[r] == Blank()
    modifies space`mem
    ensures r in space.mem && space.mem == old(space.mem)[r := space.mem[r]]
    ensures NewDir(old(space.mem), space.root, page, space.mem[r], ENTRIES)
  {
    hide Tables, PageFrame, Walk, Entry, Flat, Frame, SameBut;
    ghost var mem0 := space.mem;
    var i := KERNEL;
    while i < SELF
      invariant KERNEL <= i <= SELF && r in space.mem && space.mem == mem0[r := space.mem[r]]
      invariant NewDir(mem0, space.root, page, space.mem[r], i)
    {
      FillFacts(mem0, space.free, space.root, page, r, space.mem[r]);
      var w := PhysAddrGet(space, WINDOW + i);
      space.Store(page, i, w);
      i := i + 1;
    }
    FillFacts(mem0, space.free, space.root, page, r, space.mem[r]);
    var w := PhysAddrGet(space, page);
    space.Store(page, SELF, w);
  }

  /** `virt_mm_fork_dir`, from where the heap has handed out a cleared page-aligned directory at
      `page` and ends on the page boundary `cur` with nothing mapped above.  `r` is that directory's
      frame.  Domain: `dir` is the active directory, every user page has a frame of its own kind,
      there are frames for the copies and for missing kernel tables, and the scratch pages stay below
      the recursive window. */
  method ForkDir(space: AddressSpace, dir: nat, page: nat, cur: nat, ghost r: nat)
    requires space.Ok() && space.At(dir, space.root) && space.At(page, r) && dir < WINDOW && page < WINDOW &&
             r < 0x8_0000
    requires PageFrame(space.mem, space.root, space.free, r) && space.mem[r] == Blank()
    requires space.root in space.mem && UserSane(space.mem, space.root, space.free + {r})
    requires KERNEL * 1024 <= cur && Unmapped(space.mem, space.root, cur)
    requires cur + ScratchFrom(space.mem, space.root, 0) <= WINDOW
    requires |space.free| >= FramesFrom(space.mem, space.root, 0) + Missing(space.mem, space.root)
    modifies space`mem, space`free
    ensures space.Ok() && Tables(space.mem, r, space.free)
    ensures PrivateCopy(old(space.mem), old(space.free), space.mem, space.free, space.root, r) &&
            DistinctFrames(space.mem, r)
    ensures ForeignFrames(old(space.mem), space.root, space.mem, r)
    ensures ParentKept(old(space.mem), space.mem, space.root)
    ensures r in space.mem && forall i :: KERNEL <= i < SELF ==> space.mem[r][i] == old(space.mem[space.root])[i]
    ensures FramesKept(old(space.mem), old(space.free), space.mem, space.free, space.root, r)
    ensures ChildFlags(old(space.mem), space.root, space.mem, r)
  {
    hide Tables, FramesKept, ChildFlags, Kept, PageFrame, Missing, Entry, Walk, Flat, Frame, Unmapped, UserSane,
        SameBut, SameWalks, FramesFrom, ScratchFrom, Outer;
    ghost var root, mem0, free0 := space.root, space.mem, space.free;
    FillDir(space, page, r);
    ghost var mem1, d := space.mem, space.mem[r];
    FillFacts(mem0, free0, root, page, r, d);
    TablesFilled(mem0, free0, root, r, d);
    InMemory(mem0, root, free0, r);
    SaneFilled(mem0, free0 + {r}, root, r, d);
    SumsSame(mem0, mem1, root, 0);
    UnmappedFilled(mem0, mem1, root, cur);
    SameWalk(mem0, mem1, root, dir);
    Reserved(mem1, root, free0, r);
    ghost var next, own;
    next, own := ForkUser(space, dir, page, cur, r);
    OuterFacts(mem1, free0 + {r}, space.mem, space.free, own, root, r, cur, next, KERNEL);
    ChildPrivate(mem1, free0, space.mem, space.free, own, root, r, cur, next);
    ChildWritable(mem1, free0 + {r}, space.mem, space.free, own, root, r, cur, next);
    FlagsOfBefore(mem0, d, space.mem, root, r);
    ParentSame(mem1, free0 + {r}, space.mem, space.free, own, root, r, cur, next);
    CopyOfBefore(mem0, free0, r, d, space.mem, space.free, root);
    FreshFramesForeign(mem0, free0, space.mem, space.free, root, r);
    ForkedTables(mem0, free0, d, mem1, space.mem, space.free, own, root, page, r, cur, next);
    ForkedFrames(mem0, free0, d, space.mem, space.free, own, root, r, cur, next);
  }

  lemma ForkedFrames(mem0: Memory, free0: set<nat>, d: Page, mem: Memory, free: set<nat>, own: map<nat, nat>,
                     root: nat, r: nat, cur: nat, next: nat)
    requires Tables(mem0, root, free0) && PageFrame(mem0, root, free0, r)
    requires Outer(mem0[r := d], free0 + {r}, mem, free, own, root, r, cur, next, KERNEL)
    ensures FramesKept(mem0, free0, mem, free, root, r)
  {
    hide SameWalks, EntryOk, Missing, FramesFrom, ScratchFrom, Apart, TakenFrom;
    var mem1 := mem0[r := d];
    assert mem1[root] == mem0[root];
    forall f | PageFrame(mem0, root, free0, f) && f != r
      ensures f in mem && PageFrame(mem, root, free, f) && mem[f] == mem0[f]
    {
      assert forall i: nat :: IsTable(mem1, root, i, f) ==> IsTable(mem0, root, i, f);
      PageFrameKept(mem1, free0 + {r}, mem, free, root, f);
    }
  }

  lemma FlagsOfBefore(mem0: Memory, d: Page, mem: Memory, root: nat, r: nat)
    requires root in mem0 && r != root && r in mem && SameBut(mem0, mem0[r := d], root, 0, 0)
    requires ChildFlags(mem0[r := d], root, mem, r)
    ensures ChildFlags(mem0, root, mem, r)
  {
    hide Entry, ChildFlags;
    FlagsBefore(mem0, mem0[r := d], mem, root, r);
  }

  lemma SameWalk(mem: Memory, mem': Memory, root: nat, v: nat)
    requires SameBut(mem, mem', root, 0, 0) && v < WINDOW
    ensures Walk(mem', root, v) == Walk(mem, root, v)
  {
  }

  lemma ForkedTables(mem0: Memory, free0: set<nat>, d: Page, mem1: Memory, mem: Memory, free: set<nat>,
                     own: map<nat, nat>, root: nat, page: nat, r: nat, cur: nat, next: nat)
    requires Tables(mem0, root, free0) && root in mem0 && NewDir(mem0, root, page, d, ENTRIES) &&
             mem1 == mem0[r := d] && r != root
    requires Outer(mem1, free0 + {r}, mem, free, own, root, r, cur, next, KERNEL) && page < WINDOW &&
             Walk(mem0, root, page) == Some(r)
    ensures Tables(mem, r, free) && r in mem && forall i :: KERNEL <= i < SELF ==> mem[r][i] == mem0[root][i]
  {
    hide EntryOk, SameWalks, PageFrame, Apart, TakenFrom, Missing, Entry, Frame;
    EntryLow(mem0, root, free0, page);
    KernelEntries(mem0, free0, d, mem1, mem, free, root, r);
    ChildTables(mem1, mem, free, own, root, r);
  }

  lemma KernelEntries(mem0: Memory, free0: set<nat>, d: Page, mem1: Memory, mem: Memory, free: set<nat>, root: nat,
                      r: nat)
    requires Tables(mem0, root, free0) && root in mem0 && mem1 == mem0[r := d] && r != root &&
             Kept(mem1, free0 + {r}, mem, free, root)
    ensures root in mem && forall j :: KERNEL <= j < SELF ==>
            !mem0[root][j].top &&
            (Present(mem0[root][j]) ==> mem[root][j] == mem0[root][j])
  {
  }
}
