/** The whole of `virt_mm_fork_dir`, from the heap that hands out the directory to the page tables. */
module ForkHeap {
  import opened Wrappers
  import HeapSpec
  import KernelHeap
  import opened PageTables
  import opened Paging
  import opened ForkSpec
  import opened Fork
  import opened HeapPages

  /** If the active directory's page is one of the heap's, its block is in use. */
  ghost predicate DirInUse(mem: HeapSpec.Words, table: map<nat, nat>, T: seq<nat>, dir: nat) {
    dir * 4096 in table ==> dir * 4096 >= HeapSpec.HEADER && HeapSpec.Live(mem, T, dir * 4096 - HeapSpec.HEADER)
  }

  /** Heap and page tables between forks: the page tables show the heap, and user pages have frames of
      their own. */
  ghost predicate Ready(heap: KernelHeap.Heap, space: AddressSpace, dir: nat)
    reads heap, space
  {
    && heap.Valid() && !heap.panicked && space.Ok() && space.At(dir, space.root) && dir < WINDOW
    && HeapShown(heap.mem, heap.table, space.mem, space.root, space.free, dir)
    && space.root in space.mem && UserSane(space.mem, space.root, space.free + HeapFrames(heap.table))
    && DirInUse(heap.mem, heap.table, heap.T, dir)
  }

  /** Frames and pages for four pages of heap, the copies, and the kernel tables that are missing. */
  ghost predicate Supply(heap: KernelHeap.Heap, space: AddressSpace)
    requires space.root in space.mem
    reads heap, space
  {
    && HeapSpec.OnPage(heap.nextFrame) && Row(heap.nextFrame / 4096, 4) <= space.free
    && |space.free| >= 4 + FramesFrom(space.mem, space.root, 0) + Missing(space.mem, space.root)
    && heap.current + 4 * HeapSpec.PAGE <= HeapSpec.HEAP_LIMIT
    && heap.Limit() / 4096 + 4 + ScratchFrom(space.mem, space.root, 0) <= WINDOW
  }

  /** The growth of the heap since it had the table `table0` and ended on the page boundary `lo`,
      through the page tables, and what the heap code wrote. */
  method Follow(heap: KernelHeap.Heap, space: AddressSpace, dir: nat, lo: nat, f0: nat,
                ghost words0: HeapSpec.Words, ghost table0: map<nat, nat>)
    requires heap.Valid() && space.Ok() && space.At(dir, space.root) && dir < WINDOW && space.root in space.mem
    requires HeapShown(words0, table0, space.mem, space.root, space.free, dir)
    requires UserSane(space.mem, space.root, space.free + HeapFrames(table0))
    requires FIRST <= lo && HeapSpec.Paged(table0, lo * 4096) && heap.Limit() / 4096 <= WINDOW
    requires HeapSpec.Grown(table0, heap.table, lo * 4096, heap.Limit(), f0 * 4096, heap.nextFrame)
    requires Row(f0, heap.Limit() / 4096 - lo) <= space.free
    requires |space.free| >= heap.Limit() / 4096 - lo + Missing(space.mem, space.root)
    modifies space`mem, space`free
    ensures space.Ok() && space.At(dir, space.root) && space.root in space.mem
    ensures HeapShown(heap.mem, heap.table, space.mem, space.root, space.free, dir)
    ensures UserStays(old(space.mem), old(space.free) + HeapFrames(table0), space.mem,
                      space.free + HeapFrames(heap.table), space.root)
    ensures space.free <= old(space.free)
    ensures |space.free| - Missing(space.mem, space.root)
            == |old(space.free)| - (heap.Limit() / 4096 - lo) - Missing(old(space.mem), space.root)
    ensures SameWalks(old(space.mem), space.mem, space.root, lo, heap.Limit() / 4096)
  {
    hide Tables, Kept, SameWalks, Missing, Walk, Step, UserStays, UserSane, HeapSpec.Paged, HeapSpec.Mapped,
        HeapSpec.Grown, Row, RowMapped, PagesShown, OwnFrames, Framed, Held, HeapFrames, HeapSpec.Tiles, HeapSpec.Chain,
        SameBut, Elsewhere;
    ghost var mem0, free0, root := space.mem, space.free, space.root;
    var hi := heap.Limit() / 4096;
    assert heap.Limit() == hi * 4096;
    GrownUp(table0, heap.table, lo, hi, f0, heap.nextFrame);
    NoneAbove(table0, mem0, root, lo);
    RowTaken(mem0, root, free0, f0, hi - lo);
    MapHeap(space, dir, lo, hi, f0);
    ghost var mem1, free1, row := space.mem, space.free, Row(f0, hi - lo);
    StepFacts(mem0, free0 - row, mem1, free1, root, lo, hi);
    MappedHeap(words0, table0, heap.table, mem0, free0, mem1, free1, root, dir, lo, hi, f0, heap.nextFrame);
    FramesGrown(table0, heap.table, lo, hi, f0, heap.nextFrame);
    MappingStays(mem0, free0, row, mem1, free1, root, lo, hi, HeapFrames(table0), HeapFrames(heap.table));
    SaneStays(mem0, free0 + HeapFrames(table0), mem1, free1 + HeapFrames(heap.table), root);
    WriteThrough(space, dir, heap.mem, hi, heap.table);
    WritingStays(mem1, space.mem, root, free1, heap.table);
    UserStaysTwice(mem0, free0 + HeapFrames(table0), mem1, free1 + HeapFrames(heap.table), space.mem,
                   free1 + HeapFrames(heap.table), root);
    WrittenWalks(mem0, mem1, space.mem, root, dir, lo, hi, HeapFrames(heap.table));
    FreeLess(mem0, free0, row, mem1, free1, root, lo, hi);
  }

  lemma GrownUp(table0: map<nat, nat>, table: map<nat, nat>, lo: nat, hi: nat, f0: nat, next: nat)
    requires HeapSpec.Grown(table0, table, lo * 4096, hi * 4096, f0 * 4096, next)
    ensures lo <= hi
  {
  }

  lemma FreeLess(mem0: Memory, free0: set<nat>, row: set<nat>, mem: Memory, free: set<nat>, root: nat, lo: nat, hi: nat)
    requires Step(mem0, free0 - row, mem, free, root, lo, hi)
    ensures free <= free0
  {
    hide Tables, SameWalks;
  }

  lemma WrittenWalks(mem0: Memory, mem1: Memory, mem: Memory, root: nat, dir: nat, lo: nat, hi: nat, frames: set<nat>)
    requires SameWalks(mem0, mem1, root, lo, hi) && SameBut(mem1, mem, root, 0, 0)
    requires Elsewhere(mem1, mem, root, frames) && dir < WINDOW && Walk(mem1, root, dir) == Some(root)
    ensures SameWalks(mem0, mem, root, lo, hi) && root in mem && root in mem1
    ensures Walk(mem, root, dir) == Some(root) && Missing(mem, root) == Missing(mem1, root)
  {
    MissingKept(mem1, mem, root);
    hide Entry, Missing;
  }

  /** When the new directory comes out on a page: a free block there serves it, or else the first
      block does not and the heap can be aligned. */
  ghost predicate DirFits(mem: HeapSpec.Words, C: seq<nat>, end: nat) {
    if HeapSpec.OnPage(end) then HeapSpec.PageFree(mem, C, end)
    else |C| >= 2 && !HeapSpec.Fits(mem, C[0], HeapSpec.PAGE)
  }

  lemma FewPages(current0: nat, remaining0: nat, current: nat, remaining: nat)
    requires HeapSpec.OnPage(current0 + remaining0) && HeapSpec.OnPage(current + remaining)
    requires current <= current0 + 4 * HeapSpec.PAGE && remaining < HeapSpec.PAGE
    ensures (current + remaining) / 4096 <= (current0 + remaining0) / 4096 + 4
    ensures (current0 + remaining0) / 4096 * 4096 == current0 + remaining0
  {
  }

  lemma SomeOfRow(f0: nat, n: nat, more: nat, free: set<nat>)
    requires n <= more && Row(f0, more) <= free
    ensures Row(f0, n) <= free
  {
  }

  lemma DirStays(mem0: HeapSpec.Words, table0: map<nat, nat>, T0: seq<nat>, mem: HeapSpec.Words, table: map<nat, nat>,
                 T: seq<nat>, space: Memory, root: nat, dir: nat, hi: nat)
    requires DirInUse(mem0, table0, T0, dir) && HeapSpec.AllKept(mem0, T0, mem, T) && HeapSpec.Paged(table, hi)
    requires PagesShown(table0, space, root) && Walk(space, root, dir) == Some(root) && dir < WINDOW
    ensures DirInUse(mem, table, T, dir) && (dir * 4096 in table ==> dir * 4096 in table0)
  {
    if dir * 4096 in table {
      assert FIRST <= dir && FrameAt(table0, dir).Some?;
      HeapSpec.StillLive(mem0, T0, mem, T, dir * 4096 - HeapSpec.HEADER);
    }
  }

  /** `virt_mm_addr_create` up to the kernel's entries: the heap hands out a zeroed directory, and the
      page tables follow the heap. */
  method CreateDir(heap: KernelHeap.Heap, space: AddressSpace, dir: nat) returns (child: nat, faulted: bool)
    requires Ready(heap, space, dir) && Supply(heap, space)
    modifies heap, space`mem, space`free
    ensures Ready(heap, space, dir)
    ensures faulted <==> !HeapSpec.OnPage(old(heap.current)) && |old(heap.C)| < 2
    ensures !faulted ==> HeapSpec.HEADER <= child && NewBlock(old(heap.mem), old(heap.T), heap.mem, heap.T, child)
    ensures !faulted ==> (HeapSpec.OnPage(child) <==> DirFits(old(heap.mem), old(heap.C), old(heap.current)))
    ensures !faulted && HeapSpec.OnPage(child) ==> HeapSpec.OnPage(heap.current)
    ensures !faulted && HeapSpec.OnPage(child) && child == dir * 4096 ==> child !in heap.table
    ensures HeapSpec.AllKept(old(heap.mem), old(heap.T), heap.mem, heap.T)
    ensures UserStays(old(space.mem), old(space.free) + HeapFrames(old(heap.table)), space.mem,
                      space.free + HeapFrames(heap.table), space.root)
    ensures space.free <= old(space.free) && space.root in space.mem
    ensures |space.free| >= FramesFrom(space.mem, space.root, 0) + Missing(space.mem, space.root)
    ensures heap.Limit() / 4096 + ScratchFrom(space.mem, space.root, 0) <= WINDOW
    ensures SameWalks(old(space.mem), space.mem, space.root, old(heap.Limit()) / 4096, heap.Limit() / 4096)
  {
    hide Tables, Kept, SameWalks, Missing, Walk, UserStays, UserSane, HeapSpec.Paged, HeapSpec.Mapped, HeapSpec.Grown,
        Row, HeapShown, HeapFrames, HeapSpec.Tiles, HeapSpec.Chain, HeapSpec.Live, HeapSpec.Zeroed, HeapSpec.AllKept,
        HeapSpec.Fits, HeapSpec.PageFree, DirInUse, FramesFrom, ScratchFrom, HeapSpec.FirstFit;
    ghost var words0, table0, T0, C0 := heap.mem, heap.table, heap.T, heap.C;
    ghost var mem0, free0, root := space.mem, space.free, space.root;
    ghost var current0, remaining0 := heap.current, heap.remaining;
    var lo, f0 := heap.Limit() / 4096, heap.nextFrame / 4096;
    child, faulted := heap.AddrCreate();
    ghost var hi := heap.Limit() / 4096;
    FewPages(current0, remaining0, heap.current, heap.remaining);
    SomeOfRow(f0, hi - lo, 4, free0);
    HeapShownParts(words0, table0, mem0, root, free0, dir);
    DirStays(words0, table0, T0, heap.mem, heap.table, heap.T, mem0, root, dir, heap.Limit());
    if !faulted && child == dir * 4096 && child in heap.table {
      DirNotNew(words0, table0, T0, dir);
    }
    Follow(heap, space, dir, lo, f0, words0, table0);
    SaneStays(mem0, free0 + HeapFrames(table0), space.mem, space.free + HeapFrames(heap.table), root);
    SumsSame(mem0, space.mem, root, 0);
  }

  /** What `calloc` promises of a page. */
  ghost predicate NewBlock(mem0: HeapSpec.Words, T0: seq<nat>, mem: HeapSpec.Words, T: seq<nat>, p: nat)
    requires HeapSpec.HEADER <= p
  {
    && HeapSpec.Live(mem, T, p - HeapSpec.HEADER) && !HeapSpec.Live(mem0, T0, p - HeapSpec.HEADER)
    && p - HeapSpec.HEADER in mem && mem[p - HeapSpec.HEADER] >= HeapSpec.PAGE
    && HeapSpec.Zeroed(mem, p, HeapSpec.PAGE)
  }

  lemma DirNotNew(mem: HeapSpec.Words, table: map<nat, nat>, T: seq<nat>, dir: nat)
    requires DirInUse(mem, table, T, dir) && dir * 4096 in table
    ensures dir * 4096 >= HeapSpec.HEADER && HeapSpec.Live(mem, T, dir * 4096 - HeapSpec.HEADER)
  {
  }

  lemma HeapShownParts(words: HeapSpec.Words, table: map<nat, nat>, mem: Memory, root: nat, free: set<nat>, dir: nat)
    requires HeapShown(words, table, mem, root, free, dir)
    ensures PagesShown(table, mem, root) && OwnFrames(table)
    ensures forall v: nat :: Framed(table, mem, root, free, dir, v) && Held(words, table, mem, dir, v)
  {
  }

  /** The directory's page is one of the heap's, below its end. */
  lemma ChildMapped(words: HeapSpec.Words, T: seq<nat>, end: nat, table: map<nat, nat>, limit: nat, child: nat)
    requires HeapSpec.Tiles(words, T, end) && HeapSpec.Paged(table, limit) && end <= limit
    requires HeapSpec.HEADER <= child && HeapSpec.Live(words, T, child - HeapSpec.HEADER) && HeapSpec.OnPage(child)
    requires child - HeapSpec.HEADER in words && words[child - HeapSpec.HEADER] >= HeapSpec.PAGE
    ensures child in table && HeapSpec.HEAP_BOTTOM <= child && child + HeapSpec.PAGE <= end
    ensures child == child / 4096 * 4096 && FIRST <= child / 4096 && child - HeapSpec.HEADER in T
  {
    var i :| 0 <= i < |T| && T[i] == child - HeapSpec.HEADER;
    HeapSpec.TileInHeap(words, T, end, i);
  }

  lemma ZeroAt(words: HeapSpec.Words, lo: nat, size: nat, n: nat)
    requires HeapSpec.Zeroed(words, lo, size) && lo <= 4 * n && 4 * n + 4 <= lo + size
    ensures 4 * n in words && words[4 * n] == 0
  {
  }

  /** A zeroed page of the heap is a blank frame. */
  lemma FrameBlank(words: HeapSpec.Words, v: nat, p: Page)
    requires PageHolds(words, v, p) && HeapSpec.Zeroed(words, v * 4096, HeapSpec.PAGE)
    ensures p == Blank()
  {
    forall k: nat | k < ENTRIES
      ensures p[k] == NO
    {
      assert WordHeld(words, v * 4096 + 4 * k, p[k]);
      ZeroAt(words, v * 4096, HeapSpec.PAGE, v * 1024 + k);
    }
  }

  /** What the fork starts from. */
  lemma ReadyToFork(words: HeapSpec.Words, table: map<nat, nat>, mem: Memory, root: nat, free: set<nat>, dir: nat,
                    page: nat, cur: nat)
    requires HeapShown(words, table, mem, root, free, dir) && FIRST <= page < WINDOW && page * 4096 in table
    requires page != dir && HeapSpec.Zeroed(words, page * 4096, HeapSpec.PAGE) && HeapSpec.Paged(table, cur * 4096)
    requires root in mem && UserSane(mem, root, free + HeapFrames(table)) && FIRST <= cur
    ensures var r := table[page * 4096] / 4096;
            && Walk(mem, root, page) == Some(r) && FrameAt(table, page) == Some(r) && r in HeapFrames(table)
            && r in mem && r < 0x8_0000 && PageFrame(mem, root, free, r) && mem[r] == Blank()
            && UserSane(mem, root, free + {r})
    ensures Unmapped(mem, root, cur)
  {
    hide Walk, Unmapped, HeapSpec.Zeroed, HeapSpec.Paged, Blank, UserSane, PageFrame, OwnFrames, PageHolds;
    var r := table[page * 4096] / 4096;
    assert Framed(table, mem, root, free, dir, page) && Held(words, table, mem, dir, page);
    FrameBlank(words, page, mem[r]);
    LessSane(mem, root, free + {r}, free + HeapFrames(table));
    NoneAbove(table, mem, root, cur);
  }

  /** The child of a fork, in frame `r`. */
  ghost predicate Forked(mem0: Memory, free0: set<nat>, mem: Memory, free: set<nat>, root: nat, r: nat,
                         table: map<nat, nat>) {
    && root in mem0 && r in mem && Tables(mem, r, free)
    && PrivateCopy(mem0, free0, mem, free, root, r) && DistinctFrames(mem, r) && ForeignFrames(mem0, root, mem, r)
    && ChildFlags(mem0, root, mem, r) && UserKept(mem0, mem, root) && KernelShared(mem0, mem, root, r)
    && forall v: nat :: FIRST <= v < WINDOW && FrameAt(table, v).Some? ==> Walk(mem, r, v) == Walk(mem, root, v)
  }

  /** The kernel's entries of the parent's directory are the child's. */
  ghost predicate KernelShared(mem0: Memory, mem: Memory, root: nat, r: nat)
    requires root in mem0 && r in mem
  {
    forall i :: KERNEL <= i < SELF && Present(mem0[root][i]) ==> mem[r][i] == mem0[root][i]
  }

  /** The fork since before the heap handed out the directory. */
  lemma ForkedSince(mem0: Memory, free0: set<nat>, heap0: set<nat>, mem1: Memory, free1: set<nat>, heap1: set<nat>,
                    mem: Memory, free: set<nat>, root: nat, r: nat, table: map<nat, nat>)
    requires UserStays(mem0, free0 + heap0, mem1, free1 + heap1, root) && free1 <= free0
    requires ChildOf(mem1, free1, mem, free, root, r)
    requires PagesShown(table, mem1, root)
    ensures Forked(mem0, free0, mem, free, root, r, table) && SameWalks(mem1, mem, root, 0, 0)
  {
    hide Tables, PageFrame;
    forall v: nat | FIRST <= v < WINDOW && FrameAt(table, v).Some?
      ensures Walk(mem, r, v) == Walk(mem, root, v)
    {
      assert Walk(mem1, root, v) == FrameAt(table, v);
      assert KERNEL <= DirIndex(v) < SELF;
    }
    hide Entry, Walk, PagesShown;
    forall v: nat | v < KERNEL * 1024
      ensures Entry(mem1, root, v) == Entry(mem0, root, v)
    {
    }
  }

  /** The page tables show the heap again once the directory's words are in it. */
  lemma ShownAgain(words: HeapSpec.Words, words': HeapSpec.Words, table: map<nat, nat>, mem: Memory, free: set<nat>,
                   mem': Memory, free': set<nat>, root: nat, dir: nat, page: nat, r: nat)
    requires HeapShown(words, table, mem, root, free, dir) && FrameAt(table, page) == Some(r) && page != dir
    requires ParentKept(mem, mem', root) && FramesKept(mem, free, mem', free', root, r) && r in mem' && r < 0x8_0000
    requires words'.Keys == words.Keys && PageHolds(words', page, mem'[r])
    requires forall a :: a in words && !(page * 4096 <= a < page * 4096 + 4096) ==> words'[a] == words[a]
    ensures HeapShown(words', table, mem', root, free', dir)
  {
    hide Walk, PageFrame, ValueOf, UserKept;
    forall v: nat
      ensures Framed(table, mem', root, free', dir, v) && Held(words', table, mem', dir, v)
    {
      assert Framed(table, mem, root, free, dir, v) && Held(words, table, mem, dir, v);
      assert v < page ==> FrameAt(table, v).None? || FrameAt(table, v) != FrameAt(table, page);
      assert page < v ==> FrameAt(table, v) != FrameAt(table, page);
      if v != dir && v != page && FrameAt(table, v).Some? {
        ElsewhereHeld(words, words', page, v, mem[FrameAt(table, v).value]);
      }
    }
  }

  lemma ElsewhereHeld(words: HeapSpec.Words, words': HeapSpec.Words, page: nat, v: nat, p: Page)
    requires words'.Keys == words.Keys && v != page && PageHolds(words, v, p)
    requires forall a :: a in words && !(page * 4096 <= a < page * 4096 + 4096) ==> words'[a] == words[a]
    ensures PageHolds(words', v, p)
  {
    hide ValueOf;
    forall k: nat | k < ENTRIES
      ensures WordHeld(words', v * 4096 + 4 * k, p[k])
    {
      assert WordHeld(words, v * 4096 + 4 * k, p[k]);
    }
  }

  /** The user half after the fork proper. */
  lemma ForkStays(mem: Memory, free: set<nat>, mem': Memory, free': set<nat>, root: nat, r: nat, frames: set<nat>)
    requires ParentKept(mem, mem', root) && FramesKept(mem, free, mem', free', root, r) && r in frames
    ensures UserStays(mem, free + frames, mem', free' + frames, root)
  {
    forall f | PageFrame(mem, root, free + frames, f)
      ensures PageFrame(mem', root, free' + frames, f)
    {
      assert PageFrame(mem, root, free, f);
    }
    hide Entry, Walk;
  }

  lemma NoWalkMoved(mem0: Memory, mem1: Memory, mem: Memory, root: nat, lo: nat, hi: nat)
    requires SameWalks(mem0, mem1, root, lo, hi) && SameWalks(mem1, mem, root, 0, 0)
    ensures SameWalks(mem0, mem, root, lo, hi)
  {
    hide Walk;
  }

  lemma HoldsValues(words: HeapSpec.Words, page: nat, p: Page)
    requires forall k :: 0 <= k < ENTRIES ==>
               page * 4096 + 4 * k in words && words[page * 4096 + 4 * k] == ValueOf(p[k])
    ensures PageHolds(words, page, p)
  {
  }

  /** The rest of `virt_mm_fork_dir` once the heap has handed out the directory `child` on a page: the
      second `malloc_align` has nothing to do, and the copying starts at the heap's end. */
  method ForkInto(heap: KernelHeap.Heap, space: AddressSpace, dir: nat, child: nat)
    requires Ready(heap, space, dir) && HeapSpec.OnPage(child) && HeapSpec.OnPage(heap.current)
    requires HeapSpec.HEADER <= child && HeapSpec.Live(heap.mem, heap.T, child - HeapSpec.HEADER)
    requires child - HeapSpec.HEADER in heap.mem && heap.mem[child - HeapSpec.HEADER] >= HeapSpec.PAGE
    requires HeapSpec.Zeroed(heap.mem, child, HeapSpec.PAGE) && (child == dir * 4096 ==> child !in heap.table)
    requires space.root in space.mem && heap.Limit() / 4096 + ScratchFrom(space.mem, space.root, 0) <= WINDOW
    requires |space.free| >= FramesFrom(space.mem, space.root, 0) + Missing(space.mem, space.root)
    modifies heap, space`mem, space`free
    ensures Ready(heap, space, dir) && heap.T == old(heap.T) && heap.table == old(heap.table)
    ensures heap.Limit() == old(heap.Limit()) && child in heap.table
    ensures forall t :: t in heap.T && t != child - HeapSpec.HEADER ==> HeapSpec.Untouched(old(heap.mem), heap.mem, t)
    ensures HeapSpec.Live(heap.mem, heap.T, child - HeapSpec.HEADER)
    ensures ChildOf(old(space.mem), old(space.free), space.mem, space.free, space.root, heap.table[child] / 4096)
    ensures PagesShown(heap.table, old(space.mem), space.root)
  {
    hide Tables, Missing, Walk, UserSane, HeapSpec.Paged, HeapSpec.Mapped, HeapSpec.Grown, HeapShown, HeapFrames,
        HeapSpec.Tiles, HeapSpec.Chain, HeapSpec.Live, HeapSpec.Zeroed, DirInUse, FramesFrom, ScratchFrom, ParentKept,
        HeapSpec.Untouched, PageHolds, FramesKept, PagesShown, OwnFrames, Unmapped, PageFrame, ForeignFrames,
        PrivateCopy, DistinctFrames, Blank, ValueOf, Framed, Held, UserStays;
    var page, cur := child / 4096, heap.current / 4096;
    ghost var words, mem0, free0, root, table := heap.mem, space.mem, space.free, space.root, heap.table;
    ChildMapped(words, heap.T, heap.current, table, heap.Limit(), child);
    HeapSpec.NothingLeft(heap.current, heap.remaining);
    HeapShownParts(words, table, mem0, root, free0, dir);
    ReadyToFork(words, table, mem0, root, free0, dir, page, cur);
    var aligned, fault := heap.Align();
    var r := heap.table[child] / 4096;
    ForkDir(space, dir, page, cur, r);
    var mem := space.mem;
    ghost var free := space.free;
    heap.WritePage(child, seq(ENTRIES, k requires 0 <= k < ENTRIES && r in mem => ValueOf(mem[r][k])));
    ReadyAgain(words, heap.mem, table, heap.T, mem0, free0, mem, free, root, dir, child, r);
  }

  /** Heap and page tables fit each other again once the directory's words are in the heap's memory. */
  lemma ReadyAgain(words: HeapSpec.Words, words': HeapSpec.Words, table: map<nat, nat>, T: seq<nat>, mem: Memory,
                   free: set<nat>, mem': Memory, free': set<nat>, root: nat, dir: nat, child: nat, r: nat)
    requires HeapShown(words, table, mem, root, free, dir) && FrameAt(table, child / 4096) == Some(r) && r < 0x8_0000
    requires root in mem && UserSane(mem, root, free + HeapFrames(table)) && r in HeapFrames(table)
    requires ParentKept(mem, mem', root) && FramesKept(mem, free, mem', free', root, r) && r in mem'
    requires DirInUse(words, table, T, dir) && child != dir * 4096 && HeapSpec.HEADER <= child && child % 4096 == 0
    requires HeapSpec.Live(words, T, child - HeapSpec.HEADER) && words'.Keys == words.Keys
    requires forall a :: a in words && !(child <= a < child + HeapSpec.PAGE) ==> words'[a] == words[a]
    requires forall k :: 0 <= k < ENTRIES ==> child + 4 * k in words' && words'[child + 4 * k] == ValueOf(mem'[r][k])
    requires forall t :: t in T && t != child - HeapSpec.HEADER ==> HeapSpec.Untouched(words, words', t)
    requires dir < WINDOW && Walk(mem, root, dir) == Some(root)
    ensures HeapShown(words', table, mem', root, free', dir) && root in mem'
    ensures UserSane(mem', root, free' + HeapFrames(table)) && DirInUse(words', table, T, dir)
    ensures HeapSpec.Live(words', T, child - HeapSpec.HEADER) && Walk(mem', root, dir) == Some(root)
  {
    hide HeapShown, UserSane, HeapFrames, ParentKept, FramesKept, DirInUse, HeapSpec.Live, HeapSpec.Untouched, Walk,
        ValueOf, PageHolds, UserStays, FrameAt;
    var page := child / 4096;
    assert child == page * 4096;
    HoldsValues(words', page, mem'[r]);
    ShownAgain(words, words', table, mem, free, mem', free', root, dir, page, r);
    ForkStays(mem, free, mem', free', root, r, HeapFrames(table));
    SaneStays(mem, free + HeapFrames(table), mem', free' + HeapFrames(table), root);
    DirWritten(words, words', table, T, mem, mem', root, dir, child);
  }

  /** What `ForkDir` makes of the directory in frame `r`. */
  ghost predicate ChildOf(mem0: Memory, free0: set<nat>, mem: Memory, free: set<nat>, root: nat, r: nat) {
    && Tables(mem, r, free) && PrivateCopy(mem0, free0, mem, free, root, r) && DistinctFrames(mem, r)
    && ForeignFrames(mem0, root, mem, r) && ParentKept(mem0, mem, root) && FramesKept(mem0, free0, mem, free, root, r)
    && r in mem && root in mem0 && ChildFlags(mem0, root, mem, r)
    && forall i :: KERNEL <= i < SELF ==> mem[r][i] == mem0[root][i]
  }

  /** `virt_mm_fork_dir`.  The child gets a private copy of the parent's user half and shares the kernel
      half, all blocks in use keep what they hold, and heap and page tables are as they were found, for
      the next fork.  Domain: the directory comes out on a page, which is told by `done`. */
  method WholeFork(heap: KernelHeap.Heap, space: AddressSpace, dir: nat) returns (child: nat, done: bool)
    requires Ready(heap, space, dir) && Supply(heap, space)
    modifies heap, space`mem, space`free
    ensures Ready(heap, space, dir)
    ensures done <==> DirFits(old(heap.mem), old(heap.C), old(heap.current))
    ensures done ==> child in heap.table && HeapSpec.HEADER <= child &&
                     HeapSpec.Live(heap.mem, heap.T, child - HeapSpec.HEADER)
    ensures done ==> Forked(old(space.mem), old(space.free), space.mem, space.free, space.root,
                            heap.table[child] / 4096, heap.table)
    ensures HeapSpec.AllKept(old(heap.mem), old(heap.T), heap.mem, heap.T)
    ensures SameWalks(old(space.mem), space.mem, space.root, old(heap.Limit()) / 4096, heap.Limit() / 4096)
  {
    hide Ready, SameWalks, Missing, UserStays, HeapFrames, HeapSpec.Live, HeapSpec.Zeroed, HeapSpec.AllKept,
        HeapSpec.Fits, HeapSpec.PageFree, FramesFrom, ScratchFrom, HeapSpec.Untouched, Forked, ChildOf, PagesShown;
    ghost var words0, T0, frames0 := heap.mem, heap.T, HeapFrames(heap.table);
    ghost var mem0, free0, root := space.mem, space.free, space.root;
    var faulted;
    child, faulted := CreateDir(heap, space, dir);
    if faulted || child % 4096 != 0 {
      return child, false;
    }
    ghost var words1, mem1, free1, frames := heap.mem, space.mem, space.free, HeapFrames(heap.table);
    ForkInto(heap, space, dir, child);
    ForkedSince(mem0, free0, frames0, mem1, free1, frames, space.mem, space.free, root, heap.table[child] / 4096,
                heap.table);
    NoWalkMoved(mem0, mem1, space.mem, root, old(heap.Limit()) / 4096, heap.Limit() / 4096);
    HeapSpec.KeptInTurn(words0, T0, words1, heap.T, heap.mem, child - HeapSpec.HEADER);
    done := true;
  }

  /** Writing the new directory leaves its block and the active one's in use. */
  lemma DirWritten(words: HeapSpec.Words, words': HeapSpec.Words, table: map<nat, nat>, T: seq<nat>, mem: Memory,
                   mem': Memory, root: nat, dir: nat, child: nat)
    requires DirInUse(words, table, T, dir) && child != dir * 4096 && HeapSpec.HEADER <= child
    requires HeapSpec.Live(words, T, child - HeapSpec.HEADER) && words'.Keys == words.Keys
    requires forall a :: a in words && !(child <= a < child + HeapSpec.PAGE) ==> words'[a] == words[a]
    requires forall t :: t in T && t != child - HeapSpec.HEADER ==> HeapSpec.Untouched(words, words', t)
    requires ParentKept(mem, mem', root) && dir < WINDOW && Walk(mem, root, dir) == Some(root)
    ensures DirInUse(words', table, T, dir) && HeapSpec.Live(words', T, child - HeapSpec.HEADER)
    ensures Walk(mem', root, dir) == Some(root)
  {
    hide UserKept, Walk;
  }
}
