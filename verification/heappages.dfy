/** The heap's pages as the page tables show them: the mapping loop of `malloc_sbrk` of
    `kernel/utils/stdlib.c` through `virt_mm_map_addr`, and what the heap writes, in the frames. */
module HeapPages {
  import opened Wrappers
  import HeapSpec
  import opened PageTables
  import opened Paging
  import opened ForkSpec
  import opened Fork

  const FIRST: nat := HeapSpec.HEAP_BOTTOM / 4096
  const U32: nat := 0x1_0000_0000

  // PAGE_TBL_PRESENT | PAGE_TBL_WRITABLE
  const RW: bv12 := PRESENT | WRITABLE

  /** The word as the number it is. */
  function ValueOf(w: Word): (n: nat)
    ensures n < U32 && (n == 0 ==> w == NO)
  {
    (if w.top then 0x8000_0000 else 0) + w.frame * 4096 + w.low as nat
  }

  function WordOf(n: nat): (w: Word)
    ensures ValueOf(w) == n % U32
  {
    var m := n % U32;
    var top, low := m >= 0x8000_0000, m % 4096;
    var frame := (m - low - if top then 0x8000_0000 else 0) / 4096;
    Fields(m, top, frame, low);
    Word(top, frame, Low(low))
  }

  lemma Fields(m: nat, top: bool, frame: int, low: nat)
    requires m < U32 && top == (m >= 0x8000_0000) && low == m % 4096
    requires frame == (m - low - if top then 0x8000_0000 else 0) / 4096
    ensures 0 <= frame < 0x8_0000 && low < 4096
    ensures m == (if top then 0x8000_0000 else 0) + frame * 4096 + low
  {
  }

  /** The flags with number `low`. */
  function Low(low: nat): (b: bv12)
    requires low < 4096
    ensures b as int == low
  {
    if low == 0 then 0
    else
      NextLow(Low(low - 1));
      Low(low - 1) + 1
  }

  lemma NextLow(b: bv12)
    requires b < 4095
    ensures (b + 1) as int == b as int + 1
  {
  }

  /** The frame of heap page `v`. */
  function FrameAt(table: map<nat, nat>, v: nat): Option<nat> {
    if v * 4096 in table then Some(table[v * 4096] / 4096) else None
  }

  /** The page tables map the heap's pages and nothing above them. */
  ghost predicate PagesShown(table: map<nat, nat>, mem: Memory, root: nat) {
    forall v: nat :: FIRST <= v < WINDOW ==> Walk(mem, root, v) == FrameAt(table, v)
  }

  ghost predicate OwnFrames(table: map<nat, nat>) {
    forall u: nat, v: nat :: u < v && FrameAt(table, u).Some? ==> FrameAt(table, u) != FrameAt(table, v)
  }

  ghost predicate Framed(table: map<nat, nat>, mem: Memory, root: nat, free: set<nat>, dir: nat, v: nat) {
    v != dir && FrameAt(table, v).Some? ==>
      var f := FrameAt(table, v).value;
      f < 0x8_0000 && f in mem && PageFrame(mem, root, free, f)
  }

  /** The frame holds the words of heap page `v`. */
  ghost predicate PageHolds(words: HeapSpec.Words, v: nat, p: Page) {
    forall k: nat :: k < ENTRIES ==> WordHeld(words, v * 4096 + 4 * k, p[k])
  }

  ghost predicate WordHeld(words: HeapSpec.Words, a: nat, w: Word) {
    a in words && ValueOf(w) == words[a] % U32
  }

  ghost predicate Held(words: HeapSpec.Words, table: map<nat, nat>, mem: Memory, dir: nat, v: nat) {
    v != dir && FrameAt(table, v).Some? ==>
      FrameAt(table, v).value in mem && PageHolds(words, v, mem[FrameAt(table, v).value])
  }

  /** The frames of the heap. */
  function HeapFrames(table: map<nat, nat>): set<nat> {
    set a | a in table :: table[a] / 4096
  }

  /** The page tables map the heap's pages to frames of their own, which hold the heap's words, and
      nothing above.  Left out is page `dir`, which is the active directory itself. */
  ghost predicate HeapShown(words: HeapSpec.Words, table: map<nat, nat>, mem: Memory, root: nat, free: set<nat>,
                            dir: nat) {
    && PagesShown(table, mem, root) && OwnFrames(table)
    && forall v: nat :: Framed(table, mem, root, free, dir, v) && Held(words, table, mem, dir, v)
  }

  /** Frames `f0` to `f0 + n - 1`. */
  function Row(f0: nat, n: nat): (s: set<nat>)
    ensures |s| == n && forall f :: f in s <==> f0 <= f < f0 + n
  {
    if n == 0 then {} else Row(f0, n - 1) + {f0 + n - 1}
  }

  lemma RowTaken(mem: Memory, root: nat, free: set<nat>, f0: nat, n: nat)
    requires Tables(mem, root, free) && Row(f0, n) <= free
    ensures root in mem && root !in free && Tables(mem, root, free - Row(f0, n)) && |free - Row(f0, n)| == |free| - n
    ensures n > 0 ==> f0 + n <= 0x8_0000
  {
    assert n > 0 ==> f0 + n - 1 in Row(f0, n);
  }

  lemma RowFramed(mem: Memory, root: nat, free: set<nat>, f0: nat, n: nat)
    requires Tables(mem, root, free) && Row(f0, n) <= free
    ensures forall f :: f0 <= f < f0 + n ==> f in mem && PageFrame(mem, root, free - Row(f0, n), f)
  {
    assert forall f :: f0 <= f < f0 + n ==> f in Row(f0, n);
  }

  /** The pages from `lo` up to `hi` show frames in a row. */
  ghost predicate RowMapped(mem: Memory, root: nat, lo: nat, hi: nat, f0: nat) {
    forall v :: lo <= v < hi ==> Walk(mem, root, v) == Some(f0 + (v - lo))
  }

  lemma RowNone(mem: Memory, root: nat, lo: nat, f0: nat)
    ensures RowMapped(mem, root, lo, lo, f0)
  {
  }

  lemma StepNone(mem: Memory, root: nat, free: set<nat>, v: nat)
    requires Tables(mem, root, free)
    ensures Step(mem, free, mem, free, root, v, v)
  {
    KeptSelf(mem, free, root);
  }

  /** The mapping loop of `malloc_sbrk`, with frames in a row taken out of the free ones before. */
  method MapHeap(space: AddressSpace, dir: nat, lo: nat, hi: nat, f0: nat)
    requires space.Ok() && space.At(dir, space.root) && dir < WINDOW && FIRST <= lo <= hi <= WINDOW
    requires Unmapped(space.mem, space.root, lo) && Row(f0, hi - lo) <= space.free && space.root in space.mem
    requires |space.free| >= hi - lo + Missing(space.mem, space.root)
    modifies space`mem, space`free
    ensures space.Ok() && space.At(dir, space.root)
    ensures Step(old(space.mem), old(space.free) - Row(f0, hi - lo), space.mem, space.free, space.root, lo, hi)
    ensures RowMapped(space.mem, space.root, lo, hi, f0)
    ensures RowFlagged(old(space.mem), space.mem, space.root, lo, hi)
  {
    hide Tables, Kept, SameWalks, Missing, Walk, Step, Frame, Unmapped, Row, RowMapped, RowFlagged, Entry, SameBut,
        EntryFlagged;
    RowNone(space.mem, space.root, lo, f0);
    FlaggedNone(space.mem, space.root, lo);
    ghost var root, mem0, free1 := space.root, space.mem, space.free - Row(f0, hi - lo);
    RowTaken(mem0, root, space.free, f0, hi - lo);
    UnmappedAt(mem0, root, lo, dir);
    space.free := space.free - Row(f0, hi - lo);
    StepNone(mem0, root, free1, lo);
    var virtual, physical := lo, f0;
    while virtual < hi
      invariant lo <= virtual <= hi && physical == f0 + (virtual - lo)
      invariant space.Ok() && space.At(dir, root) && Step(mem0, free1, space.mem, space.free, root, lo, virtual)
      invariant RowMapped(space.mem, root, lo, virtual, f0) && RowFlagged(mem0, space.mem, root, lo, virtual)
    {
      ghost var mem1, free := space.mem, space.free;
      StepFacts(mem0, free1, mem1, free, root, lo, virtual);
      AddrFrame(physical);
      MapKernel(space, dir, Addr(physical), virtual, RW);
      StepFacts(mem1, free, space.mem, space.free, root, virtual, virtual + 1);
      RowShown(mem1, space.mem, root, lo, virtual, f0);
      FlaggedMore(mem0, mem1, space.mem, root, lo, virtual, Addr(physical));
      StepTwice(mem0, free1, mem1, free, space.mem, space.free, root, lo, virtual, virtual + 1);
      virtual, physical := virtual + 1, physical + 1;
    }
  }

  /** The pages from `lo` up to `hi` became present and writable, and no other entry changed. */
  ghost predicate RowFlagged(mem0: Memory, mem: Memory, root: nat, lo: nat, hi: nat) {
    && SameBut(mem0, mem, root, lo, hi)
    && forall v: nat :: lo <= v < hi ==> Entry(mem, root, v).low == Entry(mem0, root, v).low | 3
  }

  lemma FlaggedNone(mem: Memory, root: nat, lo: nat)
    ensures RowFlagged(mem, mem, root, lo, lo)
  {
  }

  lemma FlaggedMore(mem0: Memory, mem1: Memory, mem: Memory, root: nat, lo: nat, v: nat, addr: Word)
    requires RowFlagged(mem0, mem1, root, lo, v) && SameBut(mem1, mem, root, v, v + 1) && lo <= v < WINDOW
    requires EntryFlagged(mem1, mem, root, v, RW, addr) && addr.low == 0
    ensures RowFlagged(mem0, mem, root, lo, v + 1)
  {
    hide Entry;
  }

  lemma RowShown(mem: Memory, mem': Memory, root: nat, lo: nat, v: nat, f0: nat)
    requires SameWalks(mem, mem', root, v, v + 1) && Walk(mem', root, v) == Some(f0 + (v - lo)) && lo <= v < WINDOW
    requires RowMapped(mem, root, lo, v, f0)
    ensures RowMapped(mem', root, lo, v + 1, f0)
  {
    hide Walk;
  }

  /** Nothing is mapped from the heap's limit on. */
  lemma NoneAbove(table: map<nat, nat>, mem: Memory, root: nat, lo: nat)
    requires PagesShown(table, mem, root) && HeapSpec.Paged(table, lo * 4096) && FIRST <= lo
    ensures Unmapped(mem, root, lo)
  {
    hide Walk;
    forall u: nat | lo <= u < WINDOW
      ensures Walk(mem, root, u) == None
    {
      assert u * 4096 !in table;
    }
  }

  /** The table after a growth: the frame of each page. */
  lemma GrownAt(table0: map<nat, nat>, table: map<nat, nat>, lo: nat, hi: nat, f0: nat, next: nat, v: nat)
    requires HeapSpec.Grown(table0, table, lo * 4096, hi * 4096, f0 * 4096, next)
    requires HeapSpec.Paged(table0, lo * 4096) && HeapSpec.Paged(table, hi * 4096) && FIRST <= lo <= hi
    ensures FrameAt(table, v) == if lo <= v < hi then Some(f0 + (v - lo)) else FrameAt(table0, v)
  {
    if lo <= v < hi {
      assert table[v * 4096] == f0 * 4096 + (v * 4096 - lo * 4096);
    }
  }

  /** The old pages have frames that were not free, and the new ones frames that were. */
  lemma GrownFrames(table0: map<nat, nat>, mem0: Memory, root: nat, free0: set<nat>, dir: nat, u: nat)
    requires Tables(mem0, root, free0) && PagesShown(table0, mem0, root) && FrameAt(table0, u).Some? && u < WINDOW
    requires dir < WINDOW && Walk(mem0, root, dir) == Some(root) && Framed(table0, mem0, root, free0, dir, u)
    requires FIRST <= u
    ensures FrameAt(table0, u).value !in free0
  {
    hide Walk;
  }

  lemma PagedFrom(table: map<nat, nat>, hi: nat, v: nat)
    requires HeapSpec.Paged(table, hi * 4096)
    ensures FrameAt(table, v).Some? <==> FIRST <= v < hi
  {
  }

  lemma OwnGrown(table0: map<nat, nat>, table: map<nat, nat>, mem0: Memory, root: nat, free0: set<nat>, dir: nat,
                 lo: nat, hi: nat, f0: nat, next: nat)
    requires Tables(mem0, root, free0) && PagesShown(table0, mem0, root) && OwnFrames(table0)
    requires dir < WINDOW && Walk(mem0, root, dir) == Some(root)
    requires forall v: nat :: Framed(table0, mem0, root, free0, dir, v)
    requires HeapSpec.Grown(table0, table, lo * 4096, hi * 4096, f0 * 4096, next) && Row(f0, hi - lo) <= free0
    requires HeapSpec.Paged(table0, lo * 4096) && HeapSpec.Paged(table, hi * 4096) && FIRST <= lo <= hi <= WINDOW
    ensures OwnFrames(table)
  {
    hide Tables, Walk, Framed, FrameAt, PagesShown;
    forall u: nat, v: nat | u < v && FrameAt(table, u).Some?
      ensures FrameAt(table, u) != FrameAt(table, v)
    {
      GrownAt(table0, table, lo, hi, f0, next, u);
      GrownAt(table0, table, lo, hi, f0, next, v);
      PagedFrom(table, hi, u);
      PagedFrom(table, hi, v);
      PagedFrom(table0, lo, u);
      if u < lo <= v < hi {
        GrownFrames(table0, mem0, root, free0, dir, u);
        assert f0 + (v - lo) in Row(f0, hi - lo);
      }
    }
  }

  /** After the mapping loop the page tables show the grown heap. */
  lemma MappedHeap(words0: HeapSpec.Words, table0: map<nat, nat>, table: map<nat, nat>, mem0: Memory, free0: set<nat>,
                   mem: Memory, free: set<nat>, root: nat, dir: nat, lo: nat, hi: nat, f0: nat, next: nat)
    requires HeapShown(words0, table0, mem0, root, free0, dir) && Tables(mem0, root, free0)
    requires dir < WINDOW && Walk(mem0, root, dir) == Some(root)
    requires HeapSpec.Grown(table0, table, lo * 4096, hi * 4096, f0 * 4096, next) && Row(f0, hi - lo) <= free0
    requires HeapSpec.Paged(table0, lo * 4096) && HeapSpec.Paged(table, hi * 4096) && FIRST <= lo <= hi <= WINDOW
    requires Step(mem0, free0 - Row(f0, hi - lo), mem, free, root, lo, hi)
    requires RowMapped(mem, root, lo, hi, f0)
    ensures PagesShown(table, mem, root) && OwnFrames(table) && forall v: nat :: Framed(table, mem, root, free, dir, v)
  {
    OwnGrown(table0, table, mem0, root, free0, dir, lo, hi, f0, next);
    hide Tables, Walk, FrameAt, Kept, SameWalks, Missing, PageFrame, OwnFrames, Step, HeapSpec.Paged, HeapSpec.Grown,
        Row;
    StepFacts(mem0, free0 - Row(f0, hi - lo), mem, free, root, lo, hi);
    forall v: nat
      ensures FIRST <= v < WINDOW ==> Walk(mem, root, v) == FrameAt(table, v)
    {
      GrownAt(table0, table, lo, hi, f0, next, v);
      if FIRST <= v < WINDOW && !(lo <= v < hi) {
        WalkSame(mem0, mem, root, lo, hi, v);
      }
    }
    RowTaken(mem0, root, free0, f0, hi - lo);
    RowFramed(mem0, root, free0, f0, hi - lo);
    forall v: nat
      ensures Framed(table, mem, root, free, dir, v)
    {
      GrownAt(table0, table, lo, hi, f0, next, v);
      if v != dir && FrameAt(table, v).Some? {
        var f := FrameAt(table, v).value;
        if !(lo <= v < hi) {
          assert Framed(table0, mem0, root, free0, dir, v);
          LessFree(mem0, root, free0, Row(f0, hi - lo), f);
        }
        PageFrameKept(mem0, free0 - Row(f0, hi - lo), mem, free, root, f);
      }
    }
  }

  lemma LessFree(mem: Memory, root: nat, free: set<nat>, row: set<nat>, f: nat)
    requires PageFrame(mem, root, free, f)
    ensures PageFrame(mem, root, free - row, f)
  {
  }

  /** Writing the frame of a page leaves every frame what it is. */
  lemma FramesSame(mem: Memory, root: nat, free: set<nat>, f: nat, p: Page)
    requires Tables(mem, root, free) && PageFrame(mem, root, free, f)
    ensures f in mem && Tables(mem[f := p], root, free) && SameBut(mem, mem[f := p], root, 0, 0)
    ensures forall v: nat :: v < WINDOW ==> Walk(mem[f := p], root, v) == Walk(mem, root, v)
    ensures forall g: nat :: PageFrame(mem[f := p], root, free, g) <==> PageFrame(mem, root, free, g)
  {
    var m := mem[f := p];
    DataWritten(mem, root, free, f, p);
    assert m[root] == mem[root];
    assert forall i: nat, g: nat :: IsTable(m, root, i, g) <==> IsTable(mem, root, i, g);
    hide Tables, Entry;
  }

  /** What the heap code wrote to page `v`, word by word, through the page tables. */
  method WritePage(space: AddressSpace, v: nat, words: HeapSpec.Words, ghost f: nat)
    requires space.Ok() && space.At(v, f) && v < WINDOW && PageFrame(space.mem, space.root, space.free, f)
    requires forall k: nat :: k < ENTRIES ==> v * 4096 + 4 * k in words
    modifies space`mem
    ensures f in space.mem && space.mem == old(space.mem)[f := space.mem[f]] && PageHolds(words, v, space.mem[f])
  {
    hide Tables, PageFrame, Walk, SameBut, ValueOf, WordOf;
    ghost var mem0, root := space.mem, space.root;
    var k := 0;
    while k < ENTRIES
      invariant k <= ENTRIES && f in space.mem && space.mem == mem0[f := space.mem[f]]
      invariant forall j: nat :: j < k ==> WordHeld(words, v * 4096 + 4 * j, space.mem[f][j])
    {
      FramesSame(mem0, root, space.free, f, space.mem[f]);
      space.Store(v, k, WordOf(words[v * 4096 + 4 * k]));
      k := k + 1;
    }
  }

  /** Only frames of the heap changed. */
  ghost predicate Elsewhere(mem: Memory, mem': Memory, root: nat, frames: set<nat>) {
    && mem'.Keys == mem.Keys && root in mem && mem'[root] == mem[root]
    && forall f :: f in mem && f !in frames ==> mem'[f] == mem[f]
  }

  lemma WordsOfPage(words: HeapSpec.Words, hi: nat, v: nat)
    requires HeapSpec.Mapped(words, HeapSpec.HEAP_BOTTOM, hi * 4096) && FIRST <= v < hi
    ensures forall k: nat :: k < ENTRIES ==> v * 4096 + 4 * k in words
  {
    forall k: nat | k < ENTRIES
      ensures v * 4096 + 4 * k in words
    {
      WordMapped(words, HeapSpec.HEAP_BOTTOM, hi * 4096, v * 1024 + k);
    }
  }

  lemma WordMapped(words: HeapSpec.Words, lo: nat, hi: nat, n: nat)
    requires HeapSpec.Mapped(words, lo, hi) && lo <= 4 * n < hi
    ensures 4 * n in words
  {
  }

  /** One page more holds its words. */
  lemma PageWritten(words: HeapSpec.Words, table: map<nat, nat>, mem0: Memory, mem: Memory, p: Page, root: nat,
                    free: set<nat>, dir: nat, v: nat)
    requires Tables(mem, root, free) && PagesShown(table, mem, root) && OwnFrames(table)
    requires forall u: nat :: Framed(table, mem, root, free, dir, u)
    requires forall u: nat :: u < v ==> Held(words, table, mem, dir, u)
    requires v != dir && FrameAt(table, v).Some? && PageHolds(words, v, p)
    requires SameBut(mem0, mem, root, 0, 0) && Elsewhere(mem0, mem, root, HeapFrames(table))
    ensures var m := mem[FrameAt(table, v).value := p];
            && Tables(m, root, free) && PagesShown(table, m, root) && SameBut(mem0, m, root, 0, 0)
            && (forall u: nat :: Framed(table, m, root, free, dir, u))
            && (forall u: nat :: u <= v ==> Held(words, table, m, dir, u))
            && Elsewhere(mem0, m, root, HeapFrames(table))
  {
    hide Tables, Walk, PageHolds, Entry;
    var f := FrameAt(table, v).value;
    var m := mem[f := p];
    assert Framed(table, mem, root, free, dir, v);
    FramesSame(mem, root, free, f, p);
    forall u: nat
      ensures Framed(table, m, root, free, dir, u)
      ensures u <= v ==> Held(words, table, m, dir, u)
    {
      assert Framed(table, mem, root, free, dir, u);
      if u < v {
        assert Held(words, table, mem, dir, u);
        assert FrameAt(table, u).Some? ==> FrameAt(table, u) != FrameAt(table, v);
      }
    }
    hide PageFrame;
  }

  /** What the heap code wrote, page by page, but for the page of the active directory. */
  method WriteThrough(space: AddressSpace, dir: nat, words: HeapSpec.Words, hi: nat, ghost table: map<nat, nat>)
    requires space.Ok() && space.root in space.mem && PagesShown(table, space.mem, space.root) && OwnFrames(table)
    requires forall v: nat :: Framed(table, space.mem, space.root, space.free, dir, v)
    requires FIRST <= hi <= WINDOW && HeapSpec.Paged(table, hi * 4096)
    requires HeapSpec.Mapped(words, HeapSpec.HEAP_BOTTOM, hi * 4096)
    modifies space`mem
    ensures space.Ok() && HeapShown(words, table, space.mem, space.root, space.free, dir)
    ensures SameBut(old(space.mem), space.mem, space.root, 0, 0)
    ensures Elsewhere(old(space.mem), space.mem, space.root, HeapFrames(table))
  {
    hide Tables, Walk, PageHolds, SameBut, Elsewhere, OwnFrames, Held, Framed, PageFrame, HeapSpec.Paged, PagesShown,
        HeapSpec.Mapped, HeapFrames, FrameAt;
    ghost var mem0, root, free := space.mem, space.root, space.free;
    WriteStart(words, table, mem0, root, dir);
    var v := FIRST;
    while v < hi
      invariant FIRST <= v <= hi && Tables(space.mem, root, free) && PagesShown(table, space.mem, root)
      invariant SameBut(mem0, space.mem, root, 0, 0) && Elsewhere(mem0, space.mem, root, HeapFrames(table))
      invariant forall u: nat :: Framed(table, space.mem, root, free, dir, u)
      invariant forall u: nat :: u < v ==> Held(words, table, space.mem, dir, u)
    {
      if v != dir {
        PagedFrom(table, hi, v);
        WordsOfPage(words, hi, v);
        ghost var mem1, f := space.mem, FrameAt(table, v).value;
        PageShown(table, mem1, root, free, dir, v);
        WritePage(space, v, words, f);
        PageWritten(words, table, mem0, mem1, space.mem[f], root, free, dir, v);
      } else {
        DirHeld(words, table, space.mem, dir);
      }
      v := v + 1;
    }
    forall u: nat
      ensures Held(words, table, space.mem, dir, u)
    {
      if u >= hi {
        PagedFrom(table, hi, u);
        NoPageHeld(words, table, space.mem, dir, u);
      }
    }
  }

  lemma WriteStart(words: HeapSpec.Words, table: map<nat, nat>, mem: Memory, root: nat, dir: nat)
    requires root in mem && exists hi :: HeapSpec.Paged(table, hi)
    ensures SameBut(mem, mem, root, 0, 0) && Elsewhere(mem, mem, root, HeapFrames(table))
    ensures forall u: nat :: u < FIRST ==> Held(words, table, mem, dir, u)
  {
    var hi :| HeapSpec.Paged(table, hi);
    forall u: nat | u < FIRST
      ensures Held(words, table, mem, dir, u)
    {
      assert u * 4096 !in table;
    }
  }

  lemma DirHeld(words: HeapSpec.Words, table: map<nat, nat>, mem: Memory, dir: nat)
    ensures Held(words, table, mem, dir, dir)
  {
  }

  lemma NoPageHeld(words: HeapSpec.Words, table: map<nat, nat>, mem: Memory, dir: nat, u: nat)
    requires FrameAt(table, u) == None
    ensures Held(words, table, mem, dir, u)
  {
  }

  lemma PageShown(table: map<nat, nat>, mem: Memory, root: nat, free: set<nat>, dir: nat, v: nat)
    requires PagesShown(table, mem, root) && FIRST <= v < WINDOW && v != dir && FrameAt(table, v).Some?
    requires Framed(table, mem, root, free, dir, v)
    ensures Walk(mem, root, v) == FrameAt(table, v)
    ensures FrameAt(table, v).value in mem && PageFrame(mem, root, free, FrameAt(table, v).value)
  {
  }

  // --- the user half while the kernel half changes

  ghost predicate DirKept(mem0: Memory, mem: Memory, root: nat) {
    && root in mem0 && root in mem && mem.Keys == mem0.Keys
    && forall i :: 0 <= i < ENTRIES && (i < KERNEL || Present(mem0[root][i])) ==> mem[root][i] == mem0[root][i]
  }

  /** What a change below the user half keeps: the user pages and their tables, and every frame that
      user pages may have. */
  ghost predicate UserStays(mem0: Memory, free0: set<nat>, mem: Memory, free: set<nat>, root: nat) {
    && DirKept(mem0, mem, root) && UserKept(mem0, mem, root)
    && forall f :: PageFrame(mem0, root, free0, f) ==> PageFrame(mem, root, free, f)
  }

  lemma UserStaysTwice(mem0: Memory, free0: set<nat>, mem1: Memory, free1: set<nat>, mem2: Memory, free2: set<nat>,
                       root: nat)
    requires UserStays(mem0, free0, mem1, free1, root) && UserStays(mem1, free1, mem2, free2, root)
    ensures UserStays(mem0, free0, mem2, free2, root)
  {
    hide PageFrame, Entry;
  }

  /** A user table holds the entries of its pages. */
  lemma TableEntries(mem: Memory, root: nat, i: nat, k: nat)
    requires root in mem && i < KERNEL && k < ENTRIES
    ensures HasTable(mem, root, i) ==> TableOf(mem, root, i)[k] == Entry(mem, root, i * 1024 + k)
  {
    assert DirIndex(i * 1024 + k) == i && TblIndex(i * 1024 + k) == k;
  }

  lemma TablesStay(mem0: Memory, mem: Memory, root: nat)
    requires DirKept(mem0, mem, root) && UserKept(mem0, mem, root)
    ensures SameTables(mem0, mem, root)
  {
    hide Entry;
    forall i | 0 <= i < KERNEL
      ensures HasTable(mem, root, i) == HasTable(mem0, root, i)
      ensures HasTable(mem0, root, i) ==> TableOf(mem, root, i) == TableOf(mem0, root, i)
    {
      if HasTable(mem0, root, i) {
        forall k | 0 <= k < ENTRIES
          ensures TableOf(mem, root, i)[k] == TableOf(mem0, root, i)[k]
        {
          TableEntries(mem0, root, i, k);
          TableEntries(mem, root, i, k);
        }
      }
    }
  }

  lemma SaneStays(mem0: Memory, free0: set<nat>, mem: Memory, free: set<nat>, root: nat)
    requires UserStays(mem0, free0, mem, free, root) && root in mem0 && UserSane(mem0, root, free0)
    ensures root in mem && UserSane(mem, root, free) && SameTables(mem0, mem, root)
  {
    TablesStay(mem0, mem, root);
    hide PageFrame, HasTable, TableOf;
    forall i | 0 <= i < KERNEL && HasTable(mem, root, i)
      ensures TableSane(mem, root, free, TableOf(mem, root, i))
    {
      assert TableSane(mem0, root, free0, TableOf(mem0, root, i));
    }
  }

  lemma LessSane(mem: Memory, root: nat, free: set<nat>, more: set<nat>)
    requires root in mem && UserSane(mem, root, more) && free <= more
    ensures UserSane(mem, root, free)
  {
    hide HasTable, TableOf;
    forall i | 0 <= i < KERNEL && HasTable(mem, root, i)
      ensures TableSane(mem, root, free, TableOf(mem, root, i))
    {
      assert TableSane(mem, root, more, TableOf(mem, root, i));
    }
  }

  /** The mapping loop. */
  lemma MappingStays(mem0: Memory, free0: set<nat>, row: set<nat>, mem: Memory, free: set<nat>, root: nat, lo: nat,
                     hi: nat, heap0: set<nat>, heap: set<nat>)
    requires Tables(mem0, root, free0) && root in mem0 && Step(mem0, free0 - row, mem, free, root, lo, hi)
    requires UserSane(mem0, root, free0 + heap0) && Tables(mem0, root, free0 - row) && row <= free0
    requires heap <= heap0 + row
    ensures UserStays(mem0, free0 + heap0, mem, free + heap, root)
  {
    hide Tables, Entry, Missing, SameWalks;
    LessSane(mem0, root, free0 - row, free0 + heap0);
    forall v: nat | v < KERNEL * 1024
      ensures Entry(mem, root, v) == Entry(mem0, root, v)
      ensures Present(Entry(mem0, root, v)) ==>
                var f := Frame(Entry(mem0, root, v)); f in mem0 && f in mem && mem[f] == mem0[f]
    {
      UserEntryKept(mem0, free0 - row, mem, free, root, v);
    }
    forall f | PageFrame(mem0, root, free0 + heap0, f)
      ensures PageFrame(mem, root, free + heap, f)
    {
      PageFrameKept(mem0, free0 - row, mem, free, root, f);
    }
  }

  lemma FramesGrown(table0: map<nat, nat>, table: map<nat, nat>, lo: nat, hi: nat, f0: nat, next: nat)
    requires HeapSpec.Grown(table0, table, lo * 4096, hi * 4096, f0 * 4096, next)
    requires HeapSpec.Paged(table0, lo * 4096) && HeapSpec.Paged(table, hi * 4096) && FIRST <= lo <= hi
    ensures HeapFrames(table) <= HeapFrames(table0) + Row(f0, hi - lo)
  {
    hide Row;
    forall a | a in table
      ensures table[a] / 4096 in HeapFrames(table0) + Row(f0, hi - lo)
    {
      var v := a / 4096;
      assert a == v * 4096;
      GrownAt(table0, table, lo, hi, f0, next, v);
      if lo <= v < hi {
        RowHas(f0, hi - lo, f0 + (v - lo));
      } else {
        assert a in table0;
      }
    }
  }

  lemma RowHas(f0: nat, n: nat, f: nat)
    requires f0 <= f < f0 + n
    ensures f in Row(f0, n)
  {
  }

  /** What the heap writes. */
  lemma WritingStays(mem0: Memory, mem: Memory, root: nat, free: set<nat>, table: map<nat, nat>)
    requires Tables(mem0, root, free) && root in mem0 && UserSane(mem0, root, free + HeapFrames(table))
    requires SameBut(mem0, mem, root, 0, 0) && Elsewhere(mem0, mem, root, HeapFrames(table))
    ensures UserStays(mem0, free + HeapFrames(table), mem, free + HeapFrames(table), root)
  {
    assert forall i: nat, g: nat :: IsTable(mem, root, i, g) <==> IsTable(mem0, root, i, g);
    forall v: nat | v < KERNEL * 1024 && Present(Entry(mem0, root, v))
      ensures var f := Frame(Entry(mem0, root, v)); f in mem0 && f in mem && mem[f] == mem0[f]
    {
      Split(v);
      Table(mem0, root, free, v);
      assert TableSane(mem0, root, free + HeapFrames(table), TableOf(mem0, root, DirIndex(v)));
    }
    hide Tables, Entry;
  }
}
