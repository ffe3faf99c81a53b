/** What `virt_mm_fork_dir` of `kernel/memory/virtual.c` keeps and what it makes. */
module ForkSpec {
  import opened Wrappers
  import opened PageTables

  const RWU: bv12 := PRESENT | WRITABLE | USER

  /** `f` is the frame of a kernel table. */
  ghost predicate KernelTable(mem: Memory, root: nat, f: nat) {
    exists i: nat :: KERNEL <= i < SELF && IsTable(mem, root, i, f)
  }

  /** Only free frames, kernel tables and missing kernel directory entries may change. */
  ghost predicate Kept(mem: Memory, free: set<nat>, mem': Memory, free': set<nat>, root: nat) {
    && root in mem && mem'.Keys == mem.Keys && free' <= free
    && (forall f :: f in mem && f !in free && f != root && !KernelTable(mem, root, f) ==> mem'[f] == mem[f])
    && (forall i :: 0 <= i < ENTRIES && (i < KERNEL || Present(mem[root][i])) ==> mem'[root][i] == mem[root][i])
    && (forall f: nat :: KernelTable(mem', root, f) ==> KernelTable(mem, root, f) || (f in free && f !in free'))
  }

  lemma KeptTwice(mem: Memory, free: set<nat>, mem1: Memory, free1: set<nat>, mem2: Memory, free2: set<nat>, root: nat)
    requires Kept(mem, free, mem1, free1, root) && Kept(mem1, free1, mem2, free2, root)
    ensures Kept(mem, free, mem2, free2, root)
  {
    forall f | f in mem && f !in free && f != root && !KernelTable(mem, root, f)
      ensures mem2[f] == mem[f]
    {
      assert !KernelTable(mem1, root, f);
    }
  }

  lemma KeptSelf(mem: Memory, free: set<nat>, root: nat)
    requires root in mem
    ensures Kept(mem, free, mem, free, root)
  {
  }

  lemma TouchedKept(mem: Memory, free: set<nat>, mem': Memory, free': set<nat>, root: nat, i: nat)
    requires Touched(mem, free, mem', free', root, i) && KERNEL <= i && root !in free
    ensures Kept(mem, free, mem', free', root)
  {
    forall j: nat, f: nat | KERNEL <= j < SELF && IsTable(mem', root, j, f)
      ensures KernelTable(mem, root, f) || (f in free && f !in free')
    {
      if Present(mem[root][j]) {
        assert IsTable(mem, root, j, f);
      }
    }
  }

  /** The kernel tables there are not yet. */
  function MissingSet(mem: Memory, root: nat): set<nat>
    requires root in mem
  {
    set i: nat | KERNEL <= i < SELF && !Present(mem[root][i])
  }

  function Missing(mem: Memory, root: nat): nat
    requires root in mem
  {
    |MissingSet(mem, root)|
  }

  /** Only a missing kernel table costs a frame. */
  lemma TouchedMissing(mem: Memory, free: set<nat>, mem': Memory, free': set<nat>, root: nat, i: nat)
    requires Touched(mem, free, mem', free', root, i) && KERNEL <= i && root in mem'
    ensures |free'| - Missing(mem', root) == |free| - Missing(mem, root)
  {
    if Present(mem[root][i]) || !Present(mem'[root][i]) {
      assert MissingSet(mem', root) == MissingSet(mem, root);
    } else {
      assert MissingSet(mem', root) == MissingSet(mem, root) - {i};
    }
  }

  lemma MissingKept(mem: Memory, mem': Memory, root: nat)
    requires root in mem && root in mem' && mem'[root] == mem[root]
    ensures Missing(mem', root) == Missing(mem, root)
  {
  }

  /** Every page translates as before, but for those from `lo` up to `hi`. */
  ghost predicate SameWalks(mem: Memory, mem': Memory, root: nat, lo: nat, hi: nat) {
    forall u: nat :: u < WINDOW && !(lo <= u < hi) ==> Walk(mem', root, u) == Walk(mem, root, u)
  }

  /** No page from `end` on is mapped. */
  ghost predicate Unmapped(mem: Memory, root: nat, end: nat) {
    forall u: nat :: end <= u < WINDOW ==> Walk(mem, root, u) == None
  }

  ghost predicate NoTable(mem: Memory, root: nat, f: nat) {
    forall i: nat :: !IsTable(mem, root, i, f)
  }

  /** A frame with contents of its own: neither free nor part of the page tables. */
  ghost predicate PageFrame(mem: Memory, root: nat, free: set<nat>, f: nat) {
    f in mem && f !in free && f != root && NoTable(mem, root, f)
  }

  lemma PageFrameKept(mem: Memory, free: set<nat>, mem': Memory, free': set<nat>, root: nat, f: nat)
    requires Kept(mem, free, mem', free', root) && PageFrame(mem, root, free, f)
    ensures PageFrame(mem', root, free', f) && mem'[f] == mem[f]
  {
    forall i: nat
      ensures !IsTable(mem', root, i, f)
    {
      assert !IsTable(mem, root, i, f);
      if KERNEL <= i && IsTable(mem', root, i, f) {
        assert KernelTable(mem', root, f);
      }
    }
  }

  /** Writing a frame that is no page table changes no translation. */
  lemma DataWritten(mem: Memory, root: nat, free: set<nat>, f: nat, p: Page)
    requires Tables(mem, root, free) && f in mem && f != root && NoTable(mem, root, f)
    ensures var m := mem[f := p];
            && Tables(m, root, free) && SameBut(mem, m, root, 0, 0)
            && (forall g: nat :: KernelTable(m, root, g) <==> KernelTable(mem, root, g))
  {
    var m := mem[f := p];
    assert m[root] == mem[root];
    assert forall i: nat, g: nat :: IsTable(m, root, i, g) <==> IsTable(mem, root, i, g);
    forall u: nat | u < WINDOW
      ensures Entry(m, root, u) == Entry(mem, root, u)
    {
      Table(mem, root, free, u);
    }
  }

  lemma FreshWritten(mem0: Memory, free0: set<nat>, mem: Memory, free: set<nat>, root: nat, f: nat, p: Page)
    requires Kept(mem0, free0, mem, free, root) && Tables(mem, root, free)
    requires f in free0 && f in mem && f != root && NoTable(mem, root, f)
    ensures Kept(mem0, free0, mem[f := p], free, root)
  {
    DataWritten(mem, root, free, f, p);
  }

  /** `w`, for page `v` of the child, is a private copy of what `w0` maps in the parent.  `own` says
      which page each of the child's frames was taken for. */
  ghost predicate CopyOk(mem0: Memory, w0: Word, mem: Memory, root: nat, free: set<nat>, own: map<nat, nat>, v: nat,
                         w: Word) {
    if Present(w0) then
      && Present(w) && !w.top && w.low == 7 && Frame(w0) in mem0
      && PageFrame(mem, root, free, Frame(w)) && mem[Frame(w)] == mem0[Frame(w0)]
      && Frame(w) in own && own[Frame(w)] == v
    else w == NO
  }

  ghost predicate Extends(own: map<nat, nat>, own': map<nat, nat>) {
    forall f :: f in own ==> f in own' && own'[f] == own[f]
  }

  lemma CopyKept(mem0: Memory, w0: Word, mem: Memory, mem': Memory, root: nat, free: set<nat>, free': set<nat>,
                 own: map<nat, nat>, own': map<nat, nat>, v: nat, w: Word)
    requires CopyOk(mem0, w0, mem, root, free, own, v, w)
    requires Kept(mem, free, mem', free', root) && Extends(own, own')
    ensures CopyOk(mem0, w0, mem', root, free', own', v, w)
  {
    hide Kept, PageFrame;
    if Present(w0) {
      PageFrameKept(mem, free, mem', free', root, Frame(w));
    }
  }

  /** A change of the page tables that keeps what is in use, costs frames only for missing kernel
      tables, and moves no page but those from `lo` up to `hi`. */
  ghost predicate Step(mem: Memory, free: set<nat>, mem': Memory, free': set<nat>, root: nat, lo: nat, hi: nat) {
    && Tables(mem', root, free') && Kept(mem, free, mem', free', root)
    && SameWalks(mem, mem', root, lo, hi)
    && |free'| - Missing(mem', root) == |free| - Missing(mem, root)
  }

  lemma StepTwice(mem: Memory, free: set<nat>, mem1: Memory, free1: set<nat>, mem2: Memory, free2: set<nat>, root: nat,
                  lo: nat, mid: nat, hi: nat)
    requires Step(mem, free, mem1, free1, root, lo, mid) && Step(mem1, free1, mem2, free2, root, mid, hi)
    requires lo <= mid <= hi
    ensures Step(mem, free, mem2, free2, root, lo, hi)
  {
    hide Tables, Kept, Missing, Walk;
    KeptTwice(mem, free, mem1, free1, mem2, free2, root);
  }

  lemma MapStep(mem: Memory, free: set<nat>, mem': Memory, free': set<nat>, root: nat, v: nat, w: Word)
    requires MapDone(mem, free, mem', free', root, v, w) && KERNEL * 1024 <= v < WINDOW && root !in free && Present(w)
    ensures Step(mem, free, mem', free', root, v, v + 1) && Walk(mem', root, v) == Some(Frame(w))
  {
    hide Tables, Entry, Missing, Kept;
    TouchedKept(mem, free, mem', free', root, DirIndex(v));
    TouchedMissing(mem, free, mem', free', root, DirIndex(v));
  }

  lemma UnmapStep(mem: Memory, free: set<nat>, mem': Memory, root: nat, v: nat)
    requires UnmapDone(mem, free, mem', root, v) && KERNEL * 1024 <= v < WINDOW && root !in free
    ensures Step(mem, free, mem', free, root, v, v + 1) && Walk(mem', root, v) == None
  {
    hide Tables, Entry, Missing, Kept;
    TouchedKept(mem, free, mem', free, root, DirIndex(v));
    TouchedMissing(mem, free, mem', free, root, DirIndex(v));
  }

  /** A frame that `phys_mm_block_alloc` took belongs to nothing else. */
  lemma Allocated(mem: Memory, root: nat, free: set<nat>, f: nat)
    requires Tables(mem, root, free) && f in free
    ensures Tables(mem, root, free - {f}) && PageFrame(mem, root, free - {f}, f) && f < 0x8_0000
    ensures root !in free && |free - {f}| == |free| - 1
  {
  }

  lemma KeptMore(mem: Memory, free: set<nat>, more: set<nat>, mem': Memory, free': set<nat>, root: nat)
    requires Kept(mem, free, mem', free', root) && free <= more
    ensures Kept(mem, more, mem', free', root)
  {
  }

  /** The fresh frame `f`, taken before a step, is filled after it. */
  lemma FilledAfter(mem: Memory, free: set<nat>, f: nat, mem': Memory, free': set<nat>, root: nat, lo: nat, hi: nat,
                    p: Page)
    requires Tables(mem, root, free) && f in free && Step(mem, free - {f}, mem', free', root, lo, hi)
    ensures var m := mem'[f := p];
            && Tables(m, root, free') && Kept(mem, free, m, free', root) && SameWalks(mem, m, root, lo, hi)
            && PageFrame(m, root, free', f)
            && |free'| - Missing(m, root) == |free| - 1 - Missing(mem, root)
  {
    hide Kept, Missing, Entry, Tables;
    Allocated(mem, root, free, f);
    PageFrameKept(mem, free - {f}, mem', free', root, f);
    DataWritten(mem', root, free', f, p);
    KeptMore(mem, free - {f}, free, mem', free', root);
    FreshWritten(mem, free, mem', free', root, f, p);
    MissingKept(mem', mem'[f := p], root);
    PageFrameFilled(mem', root, free', f, p);
  }

  lemma PageFrameFilled(mem: Memory, root: nat, free: set<nat>, f: nat, p: Page)
    requires PageFrame(mem, root, free, f) && root in mem
    ensures PageFrame(mem[f := p], root, free, f)
  {
    var m := mem[f := p];
    assert m[root] == mem[root];
    assert forall i: nat :: IsTable(m, root, i, f) ==> IsTable(mem, root, i, f);
  }

  lemma Restored(mem: Memory, mem1: Memory, mem2: Memory, root: nat, lo: nat, hi: nat)
    requires SameWalks(mem, mem1, root, lo, hi) && SameWalks(mem1, mem2, root, lo, hi)
    requires forall u: nat :: lo <= u < hi && u < WINDOW ==> Walk(mem, root, u) == Walk(mem2, root, u)
    ensures SameWalks(mem, mem2, root, 0, 0)
  {
    forall u: nat | u < WINDOW
      ensures Walk(mem2, root, u) == Walk(mem, root, u)
    {
      if !(lo <= u < hi) {
        assert Walk(mem1, root, u) == Walk(mem, root, u);
      }
    }
  }

  /** A new kernel table only needs a frame that was counted as missing. */
  lemma EnoughFrames(mem: Memory, root: nat, free: set<nat>, v: nat)
    requires root in mem && KERNEL * 1024 <= v < WINDOW && |free| >= Missing(mem, root)
    ensures DirIndex(v) < ENTRIES && (Present(mem[root][DirIndex(v)]) || free != {})
  {
    if !Present(mem[root][DirIndex(v)]) {
      assert DirIndex(v) in MissingSet(mem, root);
    }
  }

  lemma KernelMapped(mem: Memory, free: set<nat>, mem': Memory, free': set<nat>, root: nat, v: nat, physical: Word,
                    flags: bv12)
    requires Tables(mem, root, free) && KERNEL * 1024 <= v < WINDOW && !physical.top && flags & PRESENT == PRESENT
    requires MapDone(mem, free, mem', free', root, v, FrameSet(FlagSet(Entry(mem, root, v), flags), physical))
    ensures Step(mem, free, mem', free', root, v, v + 1) && Walk(mem', root, v) == Some(Frame(physical))
  {
    hide Entry, MapDone, Step, Frame, FrameSet, FlagSet;
    Written(mem, free, root, v, physical, flags);
    MapStep(mem, free, mem', free', root, v, FrameSet(FlagSet(Entry(mem, root, v), flags), physical));
  }

  lemma WalkSame(mem: Memory, mem': Memory, root: nat, lo: nat, hi: nat, u: nat)
    requires SameWalks(mem, mem', root, lo, hi) && u < WINDOW && !(lo <= u < hi)
    ensures Walk(mem', root, u) == Walk(mem, root, u)
  {
  }

  lemma StepFacts(mem: Memory, free: set<nat>, mem': Memory, free': set<nat>, root: nat, lo: nat, hi: nat)
    requires Step(mem, free, mem', free', root, lo, hi)
    ensures Tables(mem', root, free') && Kept(mem, free, mem', free', root) && root in mem' && mem'.Keys == mem.Keys
    ensures SameWalks(mem, mem', root, lo, hi)
    ensures |free'| - Missing(mem', root) == |free| - Missing(mem, root)
  {
  }

  lemma UnmappedAt(mem: Memory, root: nat, end: nat, u: nat)
    requires Unmapped(mem, root, end) && u < WINDOW && Walk(mem, root, u) != None
    ensures u < end
  {
  }

  /** After both temporary mappings their pages show the source and the copy. */
  lemma BothShown(mem0: Memory, free0: set<nat>, mem1: Memory, mem2: Memory, free2: set<nat>, root: nat, f: nat,
                  g: nat, cur: nat)
    requires f in free0 && Step(mem0, free0 - {f}, mem2, free2, root, cur, cur + 2) &&
             SameWalks(mem1, mem2, root, cur + 1, cur + 2)
    requires PageFrame(mem0, root, free0, g) && cur + 2 <= WINDOW
    requires f in mem0
    ensures Walk(mem2, root, cur) == Walk(mem1, root, cur)
    ensures g in mem0 && f in mem2 && g in mem2 && mem2[g] == mem0[g] && f != g
  {
    hide Tables, Walk;
  }

  /** With the temporary mappings gone again, only the copy is left. */
  lemma CopiedBack(mem0: Memory, free0: set<nat>, mem3: Memory, mem4: Memory, mem5: Memory, free2: set<nat>, root: nat,
                   f: nat, cur: nat)
    requires Kept(mem0, free0, mem3, free2, root) && SameWalks(mem0, mem3, root, cur, cur + 2) &&
             PageFrame(mem3, root, free2, f)
    requires Step(mem3, free2, mem5, free2, root, cur, cur + 2)
    requires SameWalks(mem4, mem5, root, cur + 1, cur + 2) && Walk(mem4, root, cur) == None &&
             Walk(mem5, root, cur + 1) == None
    requires Unmapped(mem0, root, cur) && cur + 2 <= WINDOW && root in mem3
    ensures Kept(mem0, free0, mem5, free2, root) && SameWalks(mem0, mem5, root, 0, 0)
    ensures PageFrame(mem5, root, free2, f) && mem5[f] == mem3[f]
    ensures root in mem5 && Missing(mem5, root) == Missing(mem3, root)
  {
    hide Tables, Kept, Walk, Missing, PageFrame;
    KeptTwice(mem0, free0, mem3, free2, mem5, free2, root);
    PageFrameKept(mem3, free2, mem5, free2, root, f);
    WalkSame(mem4, mem5, root, cur + 1, cur + 2, cur);
    Restored(mem0, mem3, mem5, root, cur, cur + 2);
  }

  /** The present words of a page from `k` on. */
  function Count(p: Page, k: nat): nat
    requires k <= ENTRIES
    decreases ENTRIES - k
  {
    if k == ENTRIES then 0 else Count(p, k + 1) + if Present(p[k]) then 1 else 0
  }

  /** The pages a table maps have frames with contents of their own. */
  ghost predicate TableSane(mem: Memory, root: nat, free: set<nat>, p: Page) {
    forall k :: 0 <= k < ENTRIES && Present(p[k]) ==> PageFrame(mem, root, free, Frame(p[k]))
  }

  /** The first `n` words of `child` are private copies of those of the parent's table `p`, for the
      pages from `base` on, and the rest are zero. */
  ghost predicate Copied(mem0: Memory, p: Page, mem: Memory, root: nat, free: set<nat>, own: map<nat, nat>, base: nat,
                         child: Page, n: nat) {
    && (forall k :: 0 <= k < n && k < ENTRIES ==> CopyOk(mem0, p[k], mem, root, free, own, base + k, child[k]))
    && (forall k :: n <= k < ENTRIES ==> child[k] == NO)
  }

  lemma CopiedKept(mem0: Memory, p: Page, mem: Memory, mem': Memory, root: nat, free: set<nat>, free': set<nat>,
                   own: map<nat, nat>, own': map<nat, nat>, base: nat, child: Page, n: nat)
    requires Copied(mem0, p, mem, root, free, own, base, child, n)
    requires Kept(mem, free, mem', free', root) && Extends(own, own')
    ensures Copied(mem0, p, mem', root, free', own', base, child, n)
  {
    hide Kept, CopyOk, Extends;
    forall k | 0 <= k < n && k < ENTRIES
      ensures CopyOk(mem0, p[k], mem', root, free', own', base + k, child[k])
    {
      CopyKept(mem0, p[k], mem, mem', root, free, free', own, own', base + k, child[k]);
    }
  }

  /** The copies do not include the frame `t`, taken for something else. */
  lemma CopiedFilled(mem0: Memory, p: Page, mem: Memory, root: nat, free: set<nat>, own: map<nat, nat>, base: nat,
                     child: Page, n: nat, t: nat, q: Page)
    requires Copied(mem0, p, mem, root, free, own, base, child, n) && root in mem
    requires PageFrame(mem, root, free, t) && (t in own ==> own[t] >= base + ENTRIES)
    ensures Copied(mem0, p, mem[t := q], root, free, own, base, child, n)
  {
    hide PageFrame;
    forall k | 0 <= k < n && k < ENTRIES
      ensures CopyOk(mem0, p[k], mem[t := q], root, free, own, base + k, child[k])
    {
      assert CopyOk(mem0, p[k], mem, root, free, own, base + k, child[k]);
      if Present(p[k]) {
        PageFrameElsewhere(mem, root, free, t, q, Frame(child[k]));
      }
    }
  }

  lemma PageFrameElsewhere(mem: Memory, root: nat, free: set<nat>, t: nat, q: Page, f: nat)
    requires PageFrame(mem, root, free, t) && PageFrame(mem, root, free, f) && root in mem
    ensures PageFrame(mem[t := q], root, free, f)
  {
    var m := mem[t := q];
    assert m[root] == mem[root];
    assert forall i: nat :: IsTable(m, root, i, f) ==> IsTable(mem, root, i, f);
  }

  lemma CopiedMore(mem0: Memory, p: Page, mem: Memory, root: nat, free: set<nat>, own: map<nat, nat>, base: nat,
                   child: Page, n: nat, w: Word)
    requires Copied(mem0, p, mem, root, free, own, base, child, n) && n < ENTRIES
    requires CopyOk(mem0, p[n], mem, root, free, own, base + n, w)
    ensures Copied(mem0, p, mem, root, free, own, base, child[n := w], n + 1)
  {
    hide CopyOk;
  }

  /** The word the fork writes for a copied page or table. */
  function ChildWord(f: nat): (w: Word)
    requires f < 0x8_0000
    ensures Present(w) && !w.top && Frame(w) == f && w.low == 7
  {
    FlagSet(Word(false, f, 0), RWU)
  }

  /** The frames of the child are not free, and none but those it had were in use before. */
  ghost predicate Apart(own: map<nat, nat>, free: set<nat>) {
    forall f :: f in own ==> f !in free
  }

  ghost predicate TakenFrom(own: map<nat, nat>, own': map<nat, nat>, free: set<nat>) {
    && Extends(own, own')
    && forall f :: f in own' ==> f in own || f in free
  }

  /** The copying of a table with `k` of its words done, table `t` of the child at page `cur`. */
  ghost predicate Inner(mem0: Memory, free0: set<nat>, own0: map<nat, nat>, p: Page, mem: Memory, free: set<nat>,
                        own: map<nat, nat>, root: nat, base: nat, t: nat, cur: nat, next: nat, k: nat) {
    && k <= ENTRIES && root in mem0 && base + ENTRIES <= WINDOW
    && Tables(mem, root, free) && Kept(mem0, free0, mem, free, root)
    && SameWalks(mem0, mem, root, cur, cur + 1) && Walk(mem, root, cur) == Some(t)
    && PageFrame(mem, root, free, t) && t in mem && t in free0 && t in own && own[t] == WINDOW + base / 1024
    && Copied(mem0, p, mem, root, free, own, base, mem[t], k)
    && Apart(own, free) && TakenFrom(own0, own, free0)
    && next == cur + 1 + 2 * (Count(p, 0) - Count(p, k))
    && |free| - Missing(mem, root) == |free0| - 1 - (Count(p, 0) - Count(p, k)) - Missing(mem0, root)
  }

  /** The parent's user tables stay as they are and in view. */
  lemma ParentShown(mem0: Memory, free0: set<nat>, mem: Memory, free: set<nat>, root: nat, i: nat)
    requires Tables(mem0, root, free0) && Tables(mem, root, free) && Kept(mem0, free0, mem, free, root)
    requires i < KERNEL && Present(mem0[root][i])
    ensures mem[root][i] == mem0[root][i]
    ensures var f := Frame(mem0[root][i]);
            Walk(mem, root, WINDOW + i) == Some(f) && f in mem0 && f in mem && mem[f] == mem0[f] && LowPage(mem0[f])
  {
    var f := Frame(mem0[root][i]);
    assert IsTable(mem0, root, i, f);
    assert !KernelTable(mem0, root, f);
    WindowShows(mem, root, i);
  }

  lemma InnerStart(mem0: Memory, free0: set<nat>, own0: map<nat, nat>, p: Page, mem1: Memory, free: set<nat>,
                   root: nat, i: nat, t: nat, cur: nat)
    requires Tables(mem0, root, free0) && t in free0 && Apart(own0, free0) && i < KERNEL && root in mem0
    requires Step(mem0, free0 - {t}, mem1, free, root, cur, cur + 1) && Walk(mem1, root, cur) == Some(t) &&
             KERNEL * 1024 <= cur < WINDOW
    ensures Inner(mem0, free0, own0, p, mem1[t := Blank()], free, own0[t := WINDOW + i], root, i * 1024, t, cur,
                  cur + 1, 0)
  {
    FilledAfter(mem0, free0, t, mem1, free, root, cur, cur + 1, Blank());
    Allocated(mem0, root, free0, t);
    StepFacts(mem0, free0 - {t}, mem1, free, root, cur, cur + 1);
    PageFrameKept(mem0, free0 - {t}, mem1, free, root, t);
    DataWritten(mem1, root, free, t, Blank());
    hide Tables, Kept, Missing, Entry, PageFrame;
    var m := mem1[t := Blank()];
    assert Entry(m, root, cur) == Entry(mem1, root, cur);
    KeptFree(mem1, free, mem0, free0 - {t}, root);
  }

  lemma KeptFree(mem1: Memory, free1: set<nat>, mem0: Memory, free0: set<nat>, root: nat)
    requires Kept(mem0, free0, mem1, free1, root)
    ensures free1 <= free0
  {
  }

  lemma KeptKeys(mem: Memory, free: set<nat>, mem': Memory, free': set<nat>, root: nat)
    requires Kept(mem, free, mem', free', root)
    ensures mem'.Keys == mem.Keys && root in mem'
  {
  }

  lemma InnerSkip(mem0: Memory, free0: set<nat>, own0: map<nat, nat>, p: Page, mem: Memory, free: set<nat>,
                  own: map<nat, nat>, root: nat, base: nat, t: nat, cur: nat, next: nat, k: nat)
    requires Inner(mem0, free0, own0, p, mem, free, own, root, base, t, cur, next, k) && k < ENTRIES && !Present(p[k])
    ensures Inner(mem0, free0, own0, p, mem, free, own, root, base, t, cur, next, k + 1)
  {
    hide Tables, Kept, SameWalks, Walk, PageFrame, Missing, Apart, TakenFrom;
  }

  /** Before a page is copied: its source is in view, and there is room for it. */
  lemma InnerRoom(mem0: Memory, free0: set<nat>, own0: map<nat, nat>, p: Page, mem: Memory, free: set<nat>,
                  own: map<nat, nat>, root: nat, base: nat, t: nat, cur: nat, next: nat, k: nat)
    requires Inner(mem0, free0, own0, p, mem, free, own, root, base, t, cur, next, k) && k < ENTRIES && Present(p[k])
    requires TableSane(mem0, root, free0, p) && Unmapped(mem0, root, cur)
    requires cur + 1 + 2 * Count(p, 0) <= WINDOW && |free0| >= 1 + Count(p, 0) + Missing(mem0, root)
    ensures PageFrame(mem, root, free, Frame(p[k])) && Frame(p[k]) in mem0 && mem[Frame(p[k])] == mem0[Frame(p[k])]
    ensures next + 2 <= WINDOW && cur < next && Unmapped(mem, root, next) && |free| >= 1 + Missing(mem, root)
  {
    hide Tables, Kept, Walk, PageFrame, Missing, Apart, TakenFrom, Copied, Frame;
    PageFrameKept(mem0, free0, mem, free, root, Frame(p[k]));
    CountFrom(p, 0, k);
    InMemory(mem0, root, free0, Frame(p[k]));
  }

  lemma InMemory(mem: Memory, root: nat, free: set<nat>, f: nat)
    requires PageFrame(mem, root, free, f)
    ensures f in mem && f !in free && f != root
  {
  }

  lemma {:induction false} CountFrom(p: Page, j: nat, k: nat)
    requires j <= k <= ENTRIES
    ensures Count(p, k) <= Count(p, j)
    decreases k - j
  {
    if j < k {
      CountFrom(p, j + 1, k);
    }
  }

  /** Copying the page of word `k` takes the table one word further. */
  lemma InnerCopy(mem0: Memory, free0: set<nat>, own0: map<nat, nat>, p: Page, mem: Memory, free: set<nat>,
                  own: map<nat, nat>, root: nat, base: nat, t: nat, cur: nat, next: nat, k: nat, mem1: Memory,
                  free1: set<nat>, f: nat)
    requires Inner(mem0, free0, own0, p, mem, free, own, root, base, t, cur, next, k) && k < ENTRIES && Present(p[k])
    requires Frame(p[k]) in mem0 && Frame(p[k]) in mem && mem[Frame(p[k])] == mem0[Frame(p[k])] && cur < WINDOW
    requires Tables(mem1, root, free1) && Kept(mem, free, mem1, free1, root) && SameWalks(mem, mem1, root, 0, 0)
    requires f in free && f < 0x8_0000 && PageFrame(mem1, root, free1, f) && mem1[f] == mem[Frame(p[k])]
    requires |free1| - Missing(mem1, root) == |free| - 1 - Missing(mem, root)
    ensures t in mem1 && mem1[t] == mem[t]
    ensures Walk(mem1, root, cur) == Some(t)
    ensures Inner(mem0, free0, own0, p, Put(mem1, t, k, ChildWord(f)), free1, own[f := base + k], root, base, t, cur,
                  next + 2, k + 1)
  {
    hide Tables, Kept, Walk, PageFrame, Missing, Copied, CopyOk, Frame, Entry;
    InMemory(mem1, root, free1, f);
    KeptKeys(mem, free, mem1, free1, root);
    var own', m := own[f := base + k], mem1[t := mem1[t][k := ChildWord(f)]];
    PageFrameKept(mem, free, mem1, free1, root, t);
    WalkSame(mem, mem1, root, 0, 0, cur);
    KeptTwice(mem0, free0, mem, free, mem1, free1, root);
    KeptFree(mem1, free1, mem, free, root);
    KeptFree(mem, free, mem0, free0, root);
    CopiedKept(mem0, p, mem, mem1, root, free, free1, own, own', base, mem[t], k);
    CopyIsOk(mem0, p[k], mem1, root, free1, own', base + k, f);
    CopiedMore(mem0, p, mem1, root, free1, own', base, mem[t], k, ChildWord(f));
    CopiedFilled(mem0, p, mem1, root, free1, own', base, mem[t][k := ChildWord(f)], k + 1, t,
                 mem1[t][k := ChildWord(f)]);
    TableFilled(mem0, free0, mem1, root, free1, t, mem1[t][k := ChildWord(f)], cur);
    SameWalksTwice(mem0, mem, mem1, m, root, cur);
  }

  lemma SameWalksTwice(mem0: Memory, mem: Memory, mem1: Memory, m: Memory, root: nat, cur: nat)
    requires SameWalks(mem0, mem, root, cur, cur + 1) && SameWalks(mem, mem1, root, 0, 0) &&
             SameWalks(mem1, m, root, 0, 0)
    ensures SameWalks(mem0, m, root, cur, cur + 1)
  {
    hide Walk;
  }

  lemma CopyIsOk(mem0: Memory, w0: Word, mem: Memory, root: nat, free: set<nat>, own: map<nat, nat>, v: nat, f: nat)
    requires Present(w0) && f < 0x8_0000 && Frame(w0) in mem0 && PageFrame(mem, root, free, f) && f in mem &&
             mem[f] == mem0[Frame(w0)]
    requires f in own && own[f] == v
    ensures CopyOk(mem0, w0, mem, root, free, own, v, ChildWord(f))
  {
  }

  /** Writing to the child's table. */
  lemma TableFilled(mem0: Memory, free0: set<nat>, mem: Memory, root: nat, free: set<nat>, t: nat, q: Page, cur: nat)
    requires Tables(mem, root, free) && Kept(mem0, free0, mem, free, root) && root in mem && cur < WINDOW
    requires PageFrame(mem, root, free, t) && t in free0
    ensures var m := mem[t := q];
            && Tables(m, root, free) && Kept(mem0, free0, m, free, root) && SameWalks(mem, m, root, 0, 0)
            && PageFrame(m, root, free, t) && Walk(m, root, cur) == Walk(mem, root, cur)
            && root in m && Missing(m, root) == Missing(mem, root)
  {
    hide Tables, Kept, Missing, Entry;
    DataWritten(mem, root, free, t, q);
    FreshWritten(mem0, free0, mem, free, root, t, q);
    PageFrameFilled(mem, root, free, t, q);
    MissingKept(mem, mem[t := q], root);
  }

  /** A user table is copied to the child's table `t`. */
  ghost predicate TableDone(mem0: Memory, free0: set<nat>, own0: map<nat, nat>, p: Page, mem: Memory, free: set<nat>,
                            own: map<nat, nat>, root: nat, base: nat, t: nat) {
    && root in mem0 && Tables(mem, root, free) && Kept(mem0, free0, mem, free, root) && SameWalks(mem0, mem, root, 0, 0)
    && PageFrame(mem, root, free, t) && t in mem && t in free0 && t in own && own[t] == WINDOW + base / 1024
    && Copied(mem0, p, mem, root, free, own, base, mem[t], ENTRIES)
    && Apart(own, free) && TakenFrom(own0, own, free0)
    && |free| - Missing(mem, root) == |free0| - 1 - Count(p, 0) - Missing(mem0, root)
  }

  lemma InnerEnd(mem0: Memory, free0: set<nat>, own0: map<nat, nat>, p: Page, mem: Memory, free: set<nat>,
                 own: map<nat, nat>, root: nat, base: nat, t: nat, cur: nat, next: nat, mem1: Memory)
    requires Inner(mem0, free0, own0, p, mem, free, own, root, base, t, cur, next, ENTRIES)
    requires Step(mem, free, mem1, free, root, cur, cur + 1) && Walk(mem1, root, cur) == None
    requires Unmapped(mem0, root, cur) && cur < WINDOW
    ensures TableDone(mem0, free0, own0, p, mem1, free, own, root, base, t)
    ensures next == cur + 1 + 2 * Count(p, 0)
  {
    hide Tables, Kept, Walk, PageFrame, Missing, Copied, CopyOk, Frame, Entry;
    KeptKeys(mem, free, mem1, free, root);
    KeptTwice(mem0, free0, mem, free, mem1, free, root);
    PageFrameKept(mem, free, mem1, free, root, t);
    CopiedKept(mem0, p, mem, mem1, root, free, free, own, own, base, mem[t], ENTRIES);
    Restored(mem0, mem, mem1, root, cur, cur + 1);
  }

  /** The frames a fork takes and the pages it uses for temporary mappings, from directory entry `i`
      on: a table each, and a frame and two pages for every mapped page. */
  function FramesFrom(mem: Memory, root: nat, i: nat): nat
    requires root in mem && i <= KERNEL
    decreases KERNEL - i
  {
    if i == KERNEL then 0
    else FramesFrom(mem, root, i + 1) + if HasTable(mem, root, i) then 1 + Count(TableOf(mem, root, i), 0) else 0
  }

  function ScratchFrom(mem: Memory, root: nat, i: nat): nat
    requires root in mem && i <= KERNEL
    decreases KERNEL - i
  {
    if i == KERNEL then 0
    else ScratchFrom(mem, root, i + 1) + if HasTable(mem, root, i) then 1 + 2 * Count(TableOf(mem, root, i), 0) else 0
  }

  predicate HasTable(mem: Memory, root: nat, i: nat)
    requires root in mem && i < ENTRIES
  {
    Present(mem[root][i]) && Frame(mem[root][i]) in mem
  }

  function TableOf(mem: Memory, root: nat, i: nat): Page
    requires root in mem && i < ENTRIES && HasTable(mem, root, i)
  {
    mem[Frame(mem[root][i])]
  }

  /** Every user page has a frame with contents of its own. */
  ghost predicate UserSane(mem: Memory, root: nat, free: set<nat>)
    requires root in mem
  {
    forall i :: 0 <= i < KERNEL && HasTable(mem, root, i) ==> TableSane(mem, root, free, TableOf(mem, root, i))
  }

  /** Entry `i` of the child's directory, in frame `r`, has a copy of the parent's table. */
  ghost predicate EntryOk(mem0: Memory, root: nat, mem: Memory, free: set<nat>, own: map<nat, nat>, r: nat, i: nat)
    requires root in mem0 && r in mem && i < KERNEL
  {
    var w := mem[r][i];
    if HasTable(mem0, root, i) then
      && Present(w) && !w.top && w.low == 7 && Frame(w) in mem && PageFrame(mem, root, free, Frame(w))
      && Frame(w) in own && own[Frame(w)] == WINDOW + i
      && Copied(mem0, TableOf(mem0, root, i), mem, root, free, own, i * 1024, mem[Frame(w)], ENTRIES)
    else w == NO
  }

  lemma EntryKept(mem0: Memory, root: nat, mem: Memory, free: set<nat>, own: map<nat, nat>, mem': Memory,
                  free': set<nat>, own': map<nat, nat>, r: nat, i: nat)
    requires root in mem0 && r in mem && i < KERNEL && EntryOk(mem0, root, mem, free, own, r, i)
    requires Kept(mem, free, mem', free', root) && Extends(own, own') && PageFrame(mem, root, free, r) && r in mem'
    ensures EntryOk(mem0, root, mem', free', own', r, i)
  {
    hide Kept, PageFrame, Copied, Frame;
    PageFrameKept(mem, free, mem', free', root, r);
    KeptKeys(mem, free, mem', free', root);
    if HasTable(mem0, root, i) {
      var f := Frame(mem[r][i]);
      PageFrameKept(mem, free, mem', free', root, f);
      CopiedKept(mem0, TableOf(mem0, root, i), mem, mem', root, free, free', own, own', i * 1024, mem[f], ENTRIES);
    }
  }

  /** Writing entry `j` of the child's directory leaves entry `i`. */
  lemma EntryFilled(mem0: Memory, root: nat, mem: Memory, free: set<nat>, own: map<nat, nat>, r: nat, i: nat, j: nat,
                    w: Word)
    requires root in mem0 && r in mem && i < KERNEL && EntryOk(mem0, root, mem, free, own, r, i) && root in mem
    requires PageFrame(mem, root, free, r) && r !in own && j < ENTRIES && j != i
    ensures EntryOk(mem0, root, Put(mem, r, j, w), free, own, r, i)
  {
    hide PageFrame, Copied, Frame;
    if HasTable(mem0, root, i) {
      var f := Frame(mem[r][i]);
      PageFrameElsewhere(mem, root, free, r, mem[r][j := w], f);
      CopiedFilled(mem0, TableOf(mem0, root, i), mem, root, free, own, i * 1024, mem[f], ENTRIES, r, mem[r][j := w]);
    }
  }

  /** The copy holds what the source held when the fork started. */
  lemma CopiedSource(mem0: Memory, free0: set<nat>, mem: Memory, free: set<nat>, p: Page, mem1: Memory, root: nat,
                     free1: set<nat>, own: map<nat, nat>, base: nat, child: Page)
    requires Copied(mem, p, mem1, root, free1, own, base, child, ENTRIES)
    requires Kept(mem0, free0, mem, free, root) && TableSane(mem0, root, free0, p)
    ensures Copied(mem0, p, mem1, root, free1, own, base, child, ENTRIES)
  {
    hide Kept, Frame, PageFrame;
    forall k | 0 <= k < ENTRIES
      ensures CopyOk(mem0, p[k], mem1, root, free1, own, base + k, child[k])
    {
      assert CopyOk(mem, p[k], mem1, root, free1, own, base + k, child[k]);
      if Present(p[k]) {
        PageFrameKept(mem0, free0, mem, free, root, Frame(p[k]));
        InMemory(mem0, root, free0, Frame(p[k]));
      }
    }
  }

  lemma SaneKept(mem0: Memory, free0: set<nat>, mem: Memory, free: set<nat>, root: nat, p: Page)
    requires Kept(mem0, free0, mem, free, root) && TableSane(mem0, root, free0, p)
    ensures TableSane(mem, root, free, p)
  {
    hide Kept, Frame, PageFrame;
    forall k | 0 <= k < ENTRIES && Present(p[k])
      ensures PageFrame(mem, root, free, Frame(p[k]))
    {
      PageFrameKept(mem0, free0, mem, free, root, Frame(p[k]));
    }
  }

  /** The fork with the tables below directory entry `i` done: `mem0` is memory when the copying
      started, `freeR` the frames free then and the one of the child's directory, `r`. */
  ghost predicate Outer(mem0: Memory, freeR: set<nat>, mem: Memory, free: set<nat>, own: map<nat, nat>, root: nat,
                        r: nat, cur: nat, next: nat, i: nat) {
    && i <= KERNEL && root in mem0 && r in mem0 && r in freeR && r in mem && r !in own
    && Tables(mem, root, free) && Kept(mem0, freeR, mem, free, root) && SameWalks(mem0, mem, root, 0, 0)
    && PageFrame(mem, root, free, r)
    && Apart(own, free) && TakenFrom(map[], own, freeR)
    && (forall j :: 0 <= j < i ==> EntryOk(mem0, root, mem, free, own, r, j))
    && (forall j :: i <= j < KERNEL ==> mem[r][j] == NO)
    && (forall j :: KERNEL <= j < ENTRIES ==> mem[r][j] == mem0[r][j])
    && next + ScratchFrom(mem0, root, i) == cur + ScratchFrom(mem0, root, 0)
    && |free| - Missing(mem, root) + 1 == |freeR| - Missing(mem0, root)
       - (FramesFrom(mem0, root, 0) - FramesFrom(mem0, root, i))
  }

  lemma Reserved(mem: Memory, root: nat, free: set<nat>, r: nat)
    requires Tables(mem, root, free) && PageFrame(mem, root, free, r) && r < 0x8_0000
    ensures Tables(mem, root, free + {r}) && |free + {r}| == |free| + 1
  {
  }

  lemma OuterStart(mem: Memory, free: set<nat>, root: nat, r: nat, cur: nat)
    requires Tables(mem, root, free) && PageFrame(mem, root, free, r) && r < 0x8_0000 && r in mem
    requires forall j :: 0 <= j < KERNEL ==> mem[r][j] == NO
    ensures Outer(mem, free + {r}, mem, free, map[], root, r, cur, cur, 0)
  {
    Reserved(mem, root, free, r);
    KeptSelf(mem, free, root);
    KeptMore(mem, free, free + {r}, mem, free, root);
  }

  lemma OuterSkip(mem0: Memory, freeR: set<nat>, mem: Memory, free: set<nat>, own: map<nat, nat>, root: nat, r: nat,
                  cur: nat, next: nat, i: nat)
    requires Outer(mem0, freeR, mem, free, own, root, r, cur, next, i) && i < KERNEL && !Present(mem0[root][i])
    ensures Outer(mem0, freeR, mem, free, own, root, r, cur, next, i + 1)
  {
    hide Tables, Kept, SameWalks, PageFrame, Apart, TakenFrom, Missing, Copied;
  }

  /** Before a table is copied: it is in view as it was, and there is room for its copy. */
  lemma OuterRoom(mem0: Memory, freeR: set<nat>, mem: Memory, free: set<nat>, own: map<nat, nat>, root: nat, r: nat,
                  cur: nat, next: nat, i: nat)
    requires Outer(mem0, freeR, mem, free, own, root, r, cur, next, i) && i < KERNEL && Present(mem0[root][i])
    requires Tables(mem0, root, freeR) && UserSane(mem0, root, freeR) && Unmapped(mem0, root, cur)
    requires cur + ScratchFrom(mem0, root, 0) <= WINDOW &&
             |freeR| >= 1 + FramesFrom(mem0, root, 0) + Missing(mem0, root)
    ensures root in mem && mem[root][i] == mem0[root][i] && HasTable(mem0, root, i) && HasTable(mem, root, i)
    ensures TableOf(mem, root, i) == TableOf(mem0, root, i) && TableSane(mem0, root, freeR, TableOf(mem0, root, i)) &&
            TableSane(mem, root, free, TableOf(mem0, root, i))
    ensures cur <= next && Unmapped(mem, root, next) && next + 1 + 2 * Count(TableOf(mem0, root, i), 0) <= WINDOW
    ensures |free| >= 1 + Count(TableOf(mem0, root, i), 0) + Missing(mem, root)
  {
    hide Tables, Kept, PageFrame, Apart, TakenFrom, Missing, Copied, TableSane, Frame, Walk, EntryOk, Count;
    ParentShown(mem0, freeR, mem, free, root, i);
    KeptKeys(mem0, freeR, mem, free, root);
    SaneKept(mem0, freeR, mem, free, root, TableOf(mem0, root, i));
    ScratchSum(mem0, root, 0, i);
    FramesSum(mem0, root, 0, i);
  }

  lemma {:induction false} ScratchSum(mem: Memory, root: nat, j: nat, i: nat)
    requires root in mem && j <= i <= KERNEL
    ensures ScratchFrom(mem, root, i) <= ScratchFrom(mem, root, j)
    decreases i - j
  {
    if j < i {
      ScratchSum(mem, root, j + 1, i);
    }
  }

  lemma {:induction false} FramesSum(mem: Memory, root: nat, j: nat, i: nat)
    requires root in mem && j <= i <= KERNEL
    ensures FramesFrom(mem, root, i) <= FramesFrom(mem, root, j)
    decreases i - j
  {
    if j < i {
      FramesSum(mem, root, j + 1, i);
    }
  }

  /** What the turn for entry `i` does to the entries before it, and to its own. */
  lemma EntriesAfter(mem0: Memory, freeR: set<nat>, mem: Memory, free: set<nat>, own: map<nat, nat>, root: nat, r: nat,
                     i: nat, mem1: Memory, free1: set<nat>, own1: map<nat, nat>, t: nat)
    requires root in mem0 && r in mem && i < KERNEL && forall j :: 0 <= j < i ==>
             EntryOk(mem0, root, mem, free, own, r, j)
    requires HasTable(mem0, root, i) && TableSane(mem0, root, freeR, TableOf(mem0, root, i)) &&
             Kept(mem0, freeR, mem, free, root)
    requires TableDone(mem, free, own, TableOf(mem0, root, i), mem1, free1, own1, root, i * 1024, t) && t < 0x8_0000
    requires PageFrame(mem, root, free, r) && PageFrame(mem1, root, free1, r) && r !in own1 && r in mem1 &&
             mem1[r] == mem[r] && root in mem1
    ensures forall j :: 0 <= j <= i ==> EntryOk(mem0, root, Put(mem1, r, i, ChildWord(t)), free1, own1, r, j)
  {
    hide Tables, Kept, SameWalks, PageFrame, Missing, Copied, EntryOk, TableSane, HasTable;
    var m := Put(mem1, r, i, ChildWord(t));
    forall j | 0 <= j < i
      ensures EntryOk(mem0, root, m, free1, own1, r, j)
    {
      EntryKept(mem0, root, mem, free, own, mem1, free1, own1, r, j);
      EntryFilled(mem0, root, mem1, free1, own1, r, j, i, ChildWord(t));
    }
    EntryNew(mem0, freeR, mem, free, own, root, r, i, mem1, free1, own1, t);
  }

  lemma EntryNew(mem0: Memory, freeR: set<nat>, mem: Memory, free: set<nat>, own: map<nat, nat>, root: nat, r: nat,
                 i: nat, mem1: Memory, free1: set<nat>, own1: map<nat, nat>, t: nat)
    requires root in mem0 && r in mem && i < KERNEL
    requires HasTable(mem0, root, i) && TableSane(mem0, root, freeR, TableOf(mem0, root, i)) &&
             Kept(mem0, freeR, mem, free, root)
    requires TableDone(mem, free, own, TableOf(mem0, root, i), mem1, free1, own1, root, i * 1024, t) && t < 0x8_0000
    requires PageFrame(mem1, root, free1, r) && r !in own1 && r in mem1 && root in mem1
    ensures EntryOk(mem0, root, Put(mem1, r, i, ChildWord(t)), free1, own1, r, i)
  {
    hide Tables, Kept, SameWalks, PageFrame, Missing, Copied, TableSane, Frame;
    var p := TableOf(mem0, root, i);
    CopiedSource(mem0, freeR, mem, free, p, mem1, root, free1, own1, i * 1024, mem1[t]);
    CopiedFilled(mem0, p, mem1, root, free1, own1, i * 1024, mem1[t], ENTRIES, r, mem1[r][i := ChildWord(t)]);
    PageFrameElsewhere(mem1, root, free1, r, mem1[r][i := ChildWord(t)], t);
  }

  lemma OuterCopy(mem0: Memory, freeR: set<nat>, mem: Memory, free: set<nat>, own: map<nat, nat>, root: nat, r: nat,
                  cur: nat, next: nat, i: nat, mem1: Memory, free1: set<nat>, own1: map<nat, nat>, t: nat, page: nat)
    requires Outer(mem0, freeR, mem, free, own, root, r, cur, next, i) && i < KERNEL && page < WINDOW
    requires HasTable(mem0, root, i) && TableSane(mem0, root, freeR, TableOf(mem0, root, i))
    requires TableDone(mem, free, own, TableOf(mem0, root, i), mem1, free1, own1, root, i * 1024, t) && t < 0x8_0000
    ensures r in mem1 && mem1[r] == mem[r] && Walk(mem1, root, page) == Walk(mem, root, page)
    ensures Outer(mem0, freeR, Put(mem1, r, i, ChildWord(t)), free1, own1, root, r, cur,
                  next + 1 + 2 * Count(TableOf(mem0, root, i), 0), i + 1)
  {
    hide Tables, Kept, PageFrame, Missing, Copied, EntryOk, TableSane, Walk, Count;
    KeptKeys(mem, free, mem1, free1, root);
    PageFrameKept(mem, free, mem1, free1, root, r);
    InMemory(mem, root, free, r);
    assert r !in own1;
    EntriesAfter(mem0, freeR, mem, free, own, root, r, i, mem1, free1, own1, t);
    KeptTwice(mem0, freeR, mem, free, mem1, free1, root);
    KeptFree(mem1, free1, mem, free, root);
    KeptFree(mem, free, mem0, freeR, root);
    TableFilled(mem0, freeR, mem1, root, free1, r, mem1[r][i := ChildWord(t)], page);
    WalkSame(mem, mem1, root, 0, 0, page);
  }

  /** The child's directory as `virt_mm_addr_create` leaves it: an empty user half, the parent's
      kernel entries, and itself at the end. */
  ghost predicate NewDir(mem: Memory, root: nat, page: nat, d: Page, n: nat)
    requires root in mem
  {
    && (forall j :: 0 <= j < KERNEL ==> d[j] == NO)
    && (forall j :: KERNEL <= j < n && j < SELF ==> d[j] == mem[root][j])
    && (n == ENTRIES ==> d[SELF] == Entry(mem, root, page))
  }

  /** The child's half of a fork: for every user page, child and parent agree on whether it is mapped
      and on its contents, and the child's frame was free before. */
  ghost predicate PrivateCopy(mem0: Memory, free0: set<nat>, mem: Memory, free: set<nat>, root: nat, r: nat) {
    forall v: nat :: v < KERNEL * 1024 ==>
      && (Present(Entry(mem, r, v)) <==> Present(Entry(mem0, root, v)))
      && (Present(Entry(mem, r, v)) ==>
            var f, g := Frame(Entry(mem, r, v)), Frame(Entry(mem0, root, v));
            f in free0 && f !in free && f in mem && g in mem0 && mem[f] == mem0[g])
  }

  /** The child may read and write what it has: every entry of its user half, for a table or a page that
      the parent has, is present, writable and for user mode, and nothing else, and there are no others. */
  ghost predicate ChildFlags(mem0: Memory, root: nat, mem: Memory, r: nat)
    requires root in mem0 && r in mem
  {
    && (forall i :: 0 <= i < KERNEL ==>
          if mem0[root][i].low & 1 == 1 then mem[r][i].low == 7 else mem[r][i] == NO)
    && (forall v: nat :: v < KERNEL * 1024 ==>
          if Entry(mem0, root, v).low & 1 == 1 then Entry(mem, r, v).low == 7 else Entry(mem, r, v) == NO)
  }

  ghost predicate DistinctFrames(mem: Memory, r: nat) {
    forall u: nat, v: nat :: u < v < KERNEL * 1024 && Present(Entry(mem, r, u)) && Present(Entry(mem, r, v)) ==>
      Frame(Entry(mem, r, u)) != Frame(Entry(mem, r, v))
  }

  /** A fork changes no frame with contents of its own but the new directory's, and no directory entry
      that was there. */
  ghost predicate FramesKept(mem0: Memory, free0: set<nat>, mem: Memory, free: set<nat>, root: nat, r: nat) {
    && root in mem0 && root in mem && mem.Keys == mem0.Keys && free <= free0 && PageFrame(mem, root, free, r)
    && (forall f :: PageFrame(mem0, root, free0, f) && f != r ==>
          f in mem && PageFrame(mem, root, free, f) && mem[f] == mem0[f])
    && (forall i :: 0 <= i < ENTRIES && (i < KERNEL || Present(mem0[root][i])) ==> mem[root][i] == mem0[root][i])
  }

  /** No user page of the child shares a frame with one of the parent. */
  ghost predicate ForeignFrames(mem0: Memory, root: nat, mem: Memory, r: nat) {
    forall u: nat, v: nat ::
      u < KERNEL * 1024 && v < KERNEL * 1024 && Present(Entry(mem, r, u)) && Present(Entry(mem0, root, v)) ==>
        Frame(Entry(mem, r, u)) != Frame(Entry(mem0, root, v))
  }

  lemma FreshFramesForeign(mem0: Memory, free0: set<nat>, mem: Memory, free: set<nat>, root: nat, r: nat)
    requires Tables(mem0, root, free0) && root in mem0 && UserSane(mem0, root, free0 + {r})
    requires PrivateCopy(mem0, free0, mem, free, root, r)
    ensures ForeignFrames(mem0, root, mem, r)
  {
    forall v: nat | v < KERNEL * 1024 && Present(Entry(mem0, root, v))
      ensures Frame(Entry(mem0, root, v)) !in free0
    {
      Split(v);
      Table(mem0, root, free0, v);
      assert TableSane(mem0, root, free0 + {r}, TableOf(mem0, root, DirIndex(v)));
    }
  }

  /** The parent's half: no user page's entry nor contents changed, and no translation at all. */
  ghost predicate ParentKept(mem0: Memory, mem: Memory, root: nat) {
    (forall v: nat :: v < WINDOW ==> Walk(mem, root, v) == Walk(mem0, root, v)) && UserKept(mem0, mem, root)
  }

  /** No user page's entry nor contents changed. */
  ghost predicate UserKept(mem0: Memory, mem: Memory, root: nat) {
    && (forall v: nat :: v < KERNEL * 1024 ==> Entry(mem, root, v) == Entry(mem0, root, v))
    && (forall v: nat :: v < KERNEL * 1024 && Present(Entry(mem0, root, v)) ==>
          var f := Frame(Entry(mem0, root, v)); f in mem0 && f in mem && mem[f] == mem0[f])
  }

  lemma Split(v: nat)
    requires v < KERNEL * 1024
    ensures DirIndex(v) < KERNEL && v == DirIndex(v) * 1024 + TblIndex(v)
  {
  }

  lemma ChildEntry(mem0: Memory, root: nat, freeR: set<nat>, mem: Memory, free: set<nat>, own: map<nat, nat>, r: nat,
                   v: nat)
    requires Tables(mem0, root, freeR) && r in mem && v < KERNEL * 1024 && DirIndex(v) < KERNEL
    requires EntryOk(mem0, root, mem, free, own, r, DirIndex(v))
    ensures CopyOk(mem0, Entry(mem0, root, v), mem, root, free, own, v, Entry(mem, r, v))
  {
    hide Copied, CopyOk, PageFrame;
    Split(v);
    Table(mem0, root, freeR, v);
    var i, k := DirIndex(v), TblIndex(v);
    if HasTable(mem0, root, i) {
      CopiedAt(mem0, TableOf(mem0, root, i), mem, root, free, own, i * 1024, mem[Frame(mem[r][i])], k);
    } else {
      assert mem[r][i] == NO;
      assert !Present(mem0[root][i]);
      assert CopyOk(mem0, NO, mem, root, free, own, v, NO) by { NoCopy(mem0, mem, root, free, own, v); }
    }
  }

  lemma NoCopy(mem0: Memory, mem: Memory, root: nat, free: set<nat>, own: map<nat, nat>, v: nat)
    ensures CopyOk(mem0, NO, mem, root, free, own, v, NO)
  {
  }

  lemma CopiedAt(mem0: Memory, p: Page, mem: Memory, root: nat, free: set<nat>, own: map<nat, nat>, base: nat,
                 child: Page, k: nat)
    requires Copied(mem0, p, mem, root, free, own, base, child, ENTRIES) && k < ENTRIES
    ensures CopyOk(mem0, p[k], mem, root, free, own, base + k, child[k])
  {
  }

  lemma ChildEntries(mem0: Memory, freeR: set<nat>, mem: Memory, free: set<nat>, own: map<nat, nat>, root: nat, r: nat,
                     cur: nat, next: nat)
    requires Tables(mem0, root, freeR) && Outer(mem0, freeR, mem, free, own, root, r, cur, next, KERNEL)
    ensures forall v: nat :: v < KERNEL * 1024 ==>
            CopyOk(mem0, Entry(mem0, root, v), mem, root, free, own, v, Entry(mem, r, v))
  {
    hide Tables, CopyOk, EntryOk, Kept, SameWalks, PageFrame, Apart, TakenFrom, Missing, Entry;
    forall v: nat | v < KERNEL * 1024
      ensures CopyOk(mem0, Entry(mem0, root, v), mem, root, free, own, v, Entry(mem, r, v))
    {
      Split(v);
      ChildEntry(mem0, root, freeR, mem, free, own, r, v);
    }
  }

  lemma ChildPrivate(mem0: Memory, free0: set<nat>, mem: Memory, free: set<nat>, own: map<nat, nat>, root: nat, r: nat,
                     cur: nat, next: nat)
    requires Tables(mem0, root, free0 + {r}) && Outer(mem0, free0 + {r}, mem, free, own, root, r, cur, next, KERNEL)
    ensures PrivateCopy(mem0, free0, mem, free, root, r) && DistinctFrames(mem, r)
  {
    hide Tables, EntryOk, Kept, SameWalks, PageFrame, Missing, Entry, Frame;
    ChildEntries(mem0, free0 + {r}, mem, free, own, root, r, cur, next);
    forall v: nat | v < KERNEL * 1024 && Present(Entry(mem, r, v))
      ensures Frame(Entry(mem, r, v)) in free0 && Frame(Entry(mem, r, v)) in mem && own[Frame(Entry(mem, r, v))] == v
    {
      assert CopyOk(mem0, Entry(mem0, root, v), mem, root, free, own, v, Entry(mem, r, v));
      InMemory(mem, root, free, Frame(Entry(mem, r, v)));
    }
  }

  lemma ChildWritable(mem0: Memory, freeR: set<nat>, mem: Memory, free: set<nat>, own: map<nat, nat>, root: nat, r: nat,
                      cur: nat, next: nat)
    requires Tables(mem0, root, freeR) && Outer(mem0, freeR, mem, free, own, root, r, cur, next, KERNEL)
    ensures ChildFlags(mem0, root, mem, r)
  {
    ChildEntries(mem0, freeR, mem, free, own, root, r, cur, next);
    forall i | 0 <= i < KERNEL
      ensures if mem0[root][i].low & 1 == 1 then mem[r][i].low == 7 else mem[r][i] == NO
    {
      assert EntryOk(mem0, root, mem, free, own, r, i);
      if Present(mem0[root][i]) {
        assert IsTable(mem0, root, i, Frame(mem0[root][i]));
      }
    }
    hide Tables, EntryOk, Kept, SameWalks, PageFrame, Missing, Entry, Frame, Apart, TakenFrom;
    forall v: nat | v < KERNEL * 1024
      ensures if Entry(mem0, root, v).low & 1 == 1 then Entry(mem, r, v).low == 7 else Entry(mem, r, v) == NO
    {
      assert CopyOk(mem0, Entry(mem0, root, v), mem, root, free, own, v, Entry(mem, r, v));
    }
  }

  lemma FlagsBefore(mem0: Memory, mem1: Memory, mem: Memory, root: nat, r: nat)
    requires root in mem0 && root in mem1 && r in mem && ChildFlags(mem1, root, mem, r)
    requires forall i :: 0 <= i < KERNEL ==> mem1[root][i] == mem0[root][i]
    requires forall v: nat :: v < KERNEL * 1024 ==> Entry(mem1, root, v) == Entry(mem0, root, v)
    ensures ChildFlags(mem0, root, mem, r)
  {
    hide Entry;
  }

  lemma UserEntryKept(mem0: Memory, freeR: set<nat>, mem: Memory, free: set<nat>, root: nat, v: nat)
    requires Tables(mem0, root, freeR) && Tables(mem, root, free) && Kept(mem0, freeR, mem, free, root)
    requires UserSane(mem0, root, freeR) && v < KERNEL * 1024
    ensures Entry(mem, root, v) == Entry(mem0, root, v)
    ensures Present(Entry(mem0, root, v)) ==>
              var f := Frame(Entry(mem0, root, v)); f in mem0 && f in mem && f !in freeR && mem[f] == mem0[f]
  {
    hide Kept, PageFrame, LowPage;
    Split(v);
    Table(mem0, root, freeR, v);
    var i := DirIndex(v);
    UserDirKept(mem0, freeR, mem, free, root, i);
    if Present(mem0[root][i]) {
      ParentShown(mem0, freeR, mem, free, root, i);
      assert TableSane(mem0, root, freeR, TableOf(mem0, root, i));
      if Present(Entry(mem0, root, v)) {
        PageFrameKept(mem0, freeR, mem, free, root, Frame(Entry(mem0, root, v)));
        InMemory(mem0, root, freeR, Frame(Entry(mem0, root, v)));
        KeptKeys(mem0, freeR, mem, free, root);
      }
    }
  }

  lemma UserDirKept(mem0: Memory, free0: set<nat>, mem: Memory, free: set<nat>, root: nat, i: nat)
    requires Kept(mem0, free0, mem, free, root) && i < KERNEL
    ensures root in mem0 && root in mem && mem[root][i] == mem0[root][i]
  {
  }

  lemma ParentSame(mem0: Memory, freeR: set<nat>, mem: Memory, free: set<nat>, own: map<nat, nat>, root: nat, r: nat,
                   cur: nat, next: nat)
    requires Tables(mem0, root, freeR) && Outer(mem0, freeR, mem, free, own, root, r, cur, next, KERNEL) &&
             UserSane(mem0, root, freeR)
    ensures ParentKept(mem0, mem, root)
  {
    hide Tables, EntryOk, Kept, PageFrame, Missing, Entry, Frame, Apart, TakenFrom, UserSane, Walk;
    forall v: nat | v < KERNEL * 1024
      ensures Entry(mem, root, v) == Entry(mem0, root, v)
      ensures Present(Entry(mem0, root, v)) ==>
                var f := Frame(Entry(mem0, root, v)); f in mem0 && f in mem && mem[f] == mem0[f]
    {
      UserEntryKept(mem0, freeR, mem, free, root, v);
    }
  }

  lemma CopiedLow(mem0: Memory, p: Page, mem: Memory, root: nat, free: set<nat>, own: map<nat, nat>, base: nat,
                  child: Page)
    requires Copied(mem0, p, mem, root, free, own, base, child, ENTRIES)
    ensures LowPage(child)
  {
    hide PageFrame;
    forall k | 0 <= k < ENTRIES
      ensures !child[k].top
    {
      assert CopyOk(mem0, p[k], mem, root, free, own, base + k, child[k]);
    }
  }

  /** The tables of the child's directory. */
  lemma ChildTable(mem0: Memory, mem: Memory, free: set<nat>, own: map<nat, nat>, root: nat, r: nat, i: nat, f: nat)
    requires root in mem0 && root in mem && Tables(mem, root, free) && PageFrame(mem, root, free, r) && r in mem &&
             r !in own
    requires forall j :: 0 <= j < KERNEL ==> EntryOk(mem0, root, mem, free, own, r, j)
    requires forall j :: KERNEL <= j < SELF ==> Present(mem[r][j]) ==> mem[r][j] == mem[root][j]
    requires IsTable(mem, r, i, f)
    ensures f in mem && f != r && f !in free && LowPage(mem[f]) && !mem[r][i].top
    ensures if i < KERNEL then NoTable(mem, root, f) && f in own && own[f] == WINDOW + i else IsTable(mem, root, i, f)
  {
    hide Copied;
    if i < KERNEL {
      assert EntryOk(mem0, root, mem, free, own, r, i);
      CopiedLow(mem0, TableOf(mem0, root, i), mem, root, free, own, i * 1024, mem[f]);
    } else {
      assert IsTable(mem, root, i, f);
    }
  }

  /** The child's directory is a well-formed one too: once active, it can be edited in turn. */
  lemma ChildTables(mem0: Memory, mem: Memory, free: set<nat>, own: map<nat, nat>, root: nat, r: nat)
    requires root in mem0 && root in mem && Tables(mem, root, free) && PageFrame(mem, root, free, r) && r in mem &&
             r !in own
    requires forall j :: 0 <= j < KERNEL ==> EntryOk(mem0, root, mem, free, own, r, j)
    requires forall j :: KERNEL <= j < SELF ==> !mem[r][j].top && (Present(mem[r][j]) ==> mem[r][j] == mem[root][j])
    requires Present(mem[r][SELF]) && Frame(mem[r][SELF]) == r && !mem[r][SELF].top
    ensures Tables(mem, r, free)
  {
    forall i: nat, f: nat | IsTable(mem, r, i, f)
      ensures f in mem && f != r && f !in free && LowPage(mem[f])
      ensures if i < KERNEL then NoTable(mem, root, f) && f in own && own[f] == WINDOW + i else IsTable(mem, root, i, f)
    {
      ChildTable(mem0, mem, free, own, root, r, i, f);
    }
    forall j | 0 <= j < ENTRIES
      ensures !mem[r][j].top
    {
      if j < KERNEL {
        assert EntryOk(mem0, root, mem, free, own, r, j);
      }
    }
  }

  /** Filling the new directory in frame `r` is seen by nobody. */
  lemma FillFacts(mem: Memory, free: set<nat>, root: nat, page: nat, r: nat, d: Page)
    requires Tables(mem, root, free) && PageFrame(mem, root, free, r) && page < WINDOW &&
             Walk(mem, root, page) == Some(r)
    ensures var m := mem[r := d];
            && Tables(m, root, free) && SameBut(mem, m, root, 0, 0) && PageFrame(m, root, free, r)
            && root in m && m[root] == mem[root] && r in m && Walk(m, root, page) == Some(r)
            && DirIndex(page) < ENTRIES && Present(m[root][DirIndex(page)]) &&
               Entry(m, root, page) == Entry(mem, root, page)
  {
    hide LowPage;
    var m := mem[r := d];
    DataWritten(mem, root, free, r, d);
    PageFrameFilled(mem, root, free, r, d);
    assert Entry(m, root, page) == Entry(mem, root, page);
  }

  /** Directory and user tables are the same in both memories. */
  ghost predicate SameTables(mem: Memory, mem': Memory, root: nat) {
    && root in mem && root in mem'
    && forall i :: 0 <= i < KERNEL ==>
       HasTable(mem', root, i) == HasTable(mem, root, i) &&
       (HasTable(mem, root, i) ==> TableOf(mem', root, i) == TableOf(mem, root, i))
  }

  lemma {:induction false} SumsSame(mem: Memory, mem': Memory, root: nat, i: nat)
    requires SameTables(mem, mem', root) && i <= KERNEL
    ensures ScratchFrom(mem', root, i) == ScratchFrom(mem, root, i) &&
            FramesFrom(mem', root, i) == FramesFrom(mem, root, i)
    decreases KERNEL - i
  {
    hide HasTable, TableOf, Count;
    if i < KERNEL {
      SumsSame(mem, mem', root, i + 1);
    }
  }

  lemma TablesFilled(mem: Memory, free: set<nat>, root: nat, r: nat, d: Page)
    requires Tables(mem, root, free) && PageFrame(mem, root, free, r)
    ensures SameTables(mem, mem[r := d], root) && Missing(mem[r := d], root) == Missing(mem, root)
  {
    MissingKept(mem, mem[r := d], root);
    forall i | 0 <= i < KERNEL && Present(mem[root][i])
      ensures Frame(mem[root][i]) != r
    {
      assert IsTable(mem, root, i, Frame(mem[root][i]));
    }
  }

  lemma SaneFilled(mem: Memory, free: set<nat>, root: nat, r: nat, d: Page)
    requires SameTables(mem, mem[r := d], root) && r in mem && r != root && UserSane(mem, root, free)
    ensures UserSane(mem[r := d], root, free)
  {
    var m := mem[r := d];
    assert m[root] == mem[root];
    forall i, k | 0 <= i < KERNEL && HasTable(m, root, i) && 0 <= k < ENTRIES && Present(TableOf(m, root, i)[k])
      ensures PageFrame(m, root, free, Frame(TableOf(m, root, i)[k]))
    {
      assert TableSane(mem, root, free, TableOf(mem, root, i));
      var f := Frame(TableOf(m, root, i)[k]);
      assert PageFrame(mem, root, free, f);
      assert forall j: nat :: IsTable(m, root, j, f) ==> IsTable(mem, root, j, f);
    }
  }

  lemma UnmappedFilled(mem: Memory, mem': Memory, root: nat, cur: nat)
    requires SameBut(mem, mem', root, 0, 0) && Unmapped(mem, root, cur)
    ensures Unmapped(mem', root, cur)
  {
    hide Entry;
    forall u: nat | cur <= u < WINDOW
      ensures Walk(mem', root, u) == None
    {
      assert Walk(mem, root, u) == None;
    }
  }

  /** What was copied after the child's directory was filled is what was there before. */
  lemma CopyOfBefore(mem00: Memory, free0: set<nat>, r: nat, d: Page, mem: Memory, free: set<nat>, root: nat)
    requires Tables(mem00, root, free0) && PageFrame(mem00, root, free0, r) && UserSane(mem00, root, free0 + {r})
    requires PrivateCopy(mem00[r := d], free0, mem, free, root, r) && ParentKept(mem00[r := d], mem, root)
    ensures PrivateCopy(mem00, free0, mem, free, root, r) && ParentKept(mem00, mem, root)
  {
    hide LowPage;
    DataWritten(mem00, root, free0, r, d);
    forall v: nat | v < KERNEL * 1024
      ensures Present(Entry(mem00, root, v)) ==> Frame(Entry(mem00, root, v)) != r
    {
      Split(v);
      Table(mem00, root, free0, v);
      if Present(Entry(mem00, root, v)) {
        assert TableSane(mem00, root, free0 + {r}, TableOf(mem00, root, DirIndex(v)));
      }
    }
    hide Tables, PageFrame, UserSane, Frame, Entry;
    var m := mem00[r := d];
    assert forall v: nat :: v < WINDOW ==> Walk(m, root, v) == Walk(mem00, root, v);
  }
}
