/** The two-level page tables of `kernel/memory/virtual.c` as the processor walks them.  Physical
    memory is a map from frame numbers to pages of 1024 words; a virtual page number splits into a
    directory and a table index. */
module PageTables {
  import opened Wrappers

  // A 32-bit word, split the way PAGE_FRAME = 0x7FFFF000 splits a table entry: bit 31, the 19 bits
  // of the mask, and the flags.
  type FrameField = n: nat | n < 0x8_0000
  datatype Word = Word(top: bool, frame: FrameField, low: bv12)
  const NO: Word := Word(false, 0, 0)

  const ENTRIES: nat := 1024
  type Page = p: seq<Word> | |p| == ENTRIES witness seq(1024, _ => Word(false, 0, 0))
  type Memory = map<nat, Page>

  // the directory entry that points to the directory itself, and the pages it makes visible
  const SELF: nat := 1023
  const WINDOW: nat := 1023 * 1024
  // the first directory entry of the kernel
  const KERNEL: nat := 768

  const PRESENT: bv12 := 1
  const WRITABLE: bv12 := 2
  const USER: bv12 := 4
  /** A page after `memset(page, 0, 4096)`. */
  function Blank(): (p: Page)
    ensures forall k :: 0 <= k < ENTRIES ==> p[k] == NO
  {
    seq(ENTRIES, _ => NO)
  }

  /** `PAGE_IS_ENABLED` */
  predicate Present(w: Word) { w.low & 1 == 1 }

  /** The frame the processor takes from an entry: bits 12 to 31. */
  function Frame(w: Word): nat { if w.top then 0x8_0000 + w.frame else w.frame }

  function DirIndex(v: nat): nat { v / 1024 }
  function TblIndex(v: nat): (k: nat)
    ensures k < ENTRIES
  {
    v % 1024
  }

  /** `virt_mm_flag_set` and `virt_mm_frame_set`: the old frame is masked out, except for bit 31. */
  function FlagSet(e: Word, flags: bv12): Word { e.(low := e.low | flags) }
  function FrameSet(e: Word, addr: Word): Word {
    Word(e.top || addr.top, addr.frame, e.low | addr.low)
  }

  /** The mask makes the new frame come out right exactly if the old entry's bit 31 was clear or the
      new address has it set too. */
  lemma FrameSetRight(e: Word, addr: Word)
    ensures Frame(FrameSet(e, addr)) == Frame(addr) <==> (!e.top || addr.top)
  {
  }

  /** Over an entry with bit 31 set, frame 5 comes out as another one. */
  lemma FrameSetWrong()
    ensures Frame(FrameSet(Word(true, 0, 1), Word(false, 5, 0))) == 0x8_0005
  {
  }

  lemma FlagsStay(e: Word, addr: Word, flags: bv12)
    requires flags & 1 == 1
    ensures Present(FrameSet(FlagSet(e, flags), addr))
  {
  }

  /** The entry of page `v` has the flags it had, those of `flags` and those of the address. */
  ghost predicate EntryFlagged(mem: Memory, mem': Memory, root: nat, v: nat, flags: bv12, addr: Word) {
    Entry(mem', root, v).low == Entry(mem, root, v).low | flags | addr.low
  }

  /** The directory entry for page `v` has `flags` too if it was not present, and is what it was if it
      was. */
  ghost predicate DirFlagged(mem: Memory, mem': Memory, root: nat, v: nat, flags: bv12) {
    root in mem && root in mem' && DirIndex(v) < ENTRIES &&
    var e := mem[root][DirIndex(v)];
    mem'[root][DirIndex(v)].low == if e.low & 1 == 1 then e.low else e.low | flags
  }

  lemma EntryFlags(mem: Memory, mem': Memory, root: nat, v: nat, flags: bv12, addr: Word)
    requires Entry(mem', root, v) == FrameSet(FlagSet(Entry(mem, root, v), flags), addr)
    ensures EntryFlagged(mem, mem', root, v, flags, addr)
  {
    hide Entry;
    FlagsJoined(Entry(mem, root, v), flags, addr);
  }

  lemma DirFlagsKept(mem: Memory, mem1: Memory, mem': Memory, root: nat, v: nat, flags: bv12)
    requires DirFlagged(mem, mem1, root, v, flags) && root in mem1 && root in mem' && mem'[root] == mem1[root]
    ensures DirFlagged(mem, mem', root, v, flags)
  {
  }

  /** The flags of an entry: those it had, the new ones and those of the address. */
  lemma FlagsJoined(e: Word, flags: bv12, addr: Word)
    ensures FrameSet(FlagSet(e, flags), addr).low == e.low | flags | addr.low
  {
  }

  /** The table entry of page `v`; no entry at all reads as zero. */
  function Entry(mem: Memory, root: nat, v: nat): Word {
    if root in mem && DirIndex(v) < ENTRIES && Present(mem[root][DirIndex(v)]) &&
        Frame(mem[root][DirIndex(v)]) in mem then
      mem[Frame(mem[root][DirIndex(v)])][TblIndex(v)]
    else NO
  }

  /** The processor's translation of page `v` to a frame. */
  function Walk(mem: Memory, root: nat, v: nat): Option<nat> {
    if Present(Entry(mem, root, v)) then Some(Frame(Entry(mem, root, v))) else None
  }

  function Put(mem: Memory, f: nat, k: nat, w: Word): Memory
    requires f in mem && k < ENTRIES
  {
    mem[f := mem[f][k := w]]
  }

  predicate LowPage(p: Page) {
    forall k :: 0 <= k < ENTRIES ==> !p[k].top
  }

  /** `f` is the frame of a table for directory entry `i`. */
  predicate IsTable(mem: Memory, root: nat, i: nat, f: nat) {
    root in mem && i < SELF && Present(mem[root][i]) && Frame(mem[root][i]) == f
  }

  /** The directory at `root` points to itself and to tables of its own, none of them free, and no
      word of these has bit 31 set. */
  ghost predicate Tables(mem: Memory, root: nat, free: set<nat>) {
    && root in mem && root !in free && LowPage(mem[root]) && free <= mem.Keys
    && Present(mem[root][SELF]) && Frame(mem[root][SELF]) == root
    && (forall f :: f in free ==> f < 0x8_0000)
    && (forall i: nat, f: nat :: IsTable(mem, root, i, f) ==> f in mem && f != root && f !in free && LowPage(mem[f]))
    && (forall i: nat, j: nat, f: nat :: IsTable(mem, root, i, f) && IsTable(mem, root, j, f) ==> i == j)
  }

  /** The recursive entry shows the table of directory entry `i` at page `WINDOW + i`. */
  lemma WindowShows(mem: Memory, root: nat, i: nat)
    requires root in mem && Present(mem[root][SELF]) && Frame(mem[root][SELF]) == root
    requires i < ENTRIES
    ensures Entry(mem, root, WINDOW + i) == mem[root][i]
  {
  }

  lemma Indices(u: nat, v: nat)
    requires u != v
    ensures DirIndex(u) != DirIndex(v) || TblIndex(u) != TblIndex(v)
  {
  }

  lemma InWindow(v: nat)
    ensures v < WINDOW <==> DirIndex(v) < SELF
  {
  }

  lemma Table(mem: Memory, root: nat, free: set<nat>, v: nat)
    requires Tables(mem, root, free) && v < WINDOW
    ensures DirIndex(v) < SELF
    ensures Present(mem[root][DirIndex(v)]) ==> IsTable(mem, root, DirIndex(v), Frame(mem[root][DirIndex(v)]))
  {
  }

  /** Writing the table entry of `v` changes no other page's entry. */
  lemma EntryWritten(mem: Memory, root: nat, free: set<nat>, v: nat, w: Word)
    requires Tables(mem, root, free) && v < WINDOW && Present(mem[root][DirIndex(v)]) && !w.top
    ensures var f := Frame(mem[root][DirIndex(v)]);
            && f in mem && f != root && Tables(Put(mem, f, TblIndex(v), w), root, free)
            && Entry(Put(mem, f, TblIndex(v), w), root, v) == w
            && (forall u: nat :: u < WINDOW && u != v ==>
                Entry(Put(mem, f, TblIndex(v), w), root, u) == Entry(mem, root, u))
  {
    Table(mem, root, free, v);
    var i, f := DirIndex(v), Frame(mem[root][DirIndex(v)]);
    assert IsTable(mem, root, i, f);
    var m := Put(mem, f, TblIndex(v), w);
    assert forall j: nat, g: nat :: IsTable(m, root, j, g) <==> IsTable(mem, root, j, g);
    forall u: nat | u < WINDOW && u != v
      ensures Entry(m, root, u) == Entry(mem, root, u)
    {
      Indices(u, v);
      Table(mem, root, free, u);
    }
  }

  /** The directory and memory after a fresh blank table `f` is entered at `i`. */
  function TableAdded(mem: Memory, root: nat, i: nat, f: nat, e: Word): Memory
    requires root in mem && i < ENTRIES && f in mem
  {
    Put(mem, root, i, e)[f := Blank()]
  }

  /** Entering a fresh blank table changes no page's entry. */
  lemma TableEntered(mem: Memory, root: nat, free: set<nat>, i: nat, f: nat, e: Word)
    requires Tables(mem, root, free) && i < SELF && f in free && !Present(mem[root][i])
    requires Present(e) && Frame(e) == f && !e.top
    ensures Tables(TableAdded(mem, root, i, f, e), root, free - {f})
    ensures forall u: nat :: u < WINDOW ==> Entry(TableAdded(mem, root, i, f, e), root, u) == Entry(mem, root, u)
  {
    var m := TableAdded(mem, root, i, f, e);
    assert forall j :: 0 <= j < ENTRIES ==> m[root][j] == if j == i then e else mem[root][j];
    assert forall j: nat, g: nat :: IsTable(m, root, j, g) ==> if j == i then g == f else IsTable(mem, root, j, g);
    forall u: nat | u < WINDOW
      ensures Entry(m, root, u) == Entry(mem, root, u)
    {
      Table(mem, root, free, u);
    }
  }

  /** Only directory entry `i` and its table changed; if there was no table, there is a fresh one. */
  ghost predicate Touched(mem: Memory, free: set<nat>, mem': Memory, free': set<nat>, root: nat, i: nat) {
    && root in mem && i < SELF && mem'.Keys == mem.Keys
    && (forall j :: 0 <= j < ENTRIES && j != i ==> mem'[root][j] == mem[root][j])
    && (if Present(mem[root][i]) || !Present(mem'[root][i])
        then mem'[root][i] == mem[root][i] && free' == free
        else Frame(mem'[root][i]) in free && free' == free - {Frame(mem'[root][i])})
    && (forall f :: f in mem && f != root && !IsTable(mem', root, i, f) ==> mem'[f] == mem[f])
  }

  /** The pages with a translation, each with its frame. */
  ghost function Flat(mem: Memory, root: nat): map<nat, nat> {
    map v: nat | v < WINDOW && Walk(mem, root, v).Some? :: Walk(mem, root, v).value
  }

  ghost predicate SameBut(mem: Memory, mem': Memory, root: nat, lo: nat, hi: nat) {
    forall u: nat :: u < WINDOW && !(lo <= u < hi) ==> Entry(mem', root, u) == Entry(mem, root, u)
  }

  /** Page `v` got entry `w`, in a table entered for it if there was none, and nothing else changed. */
  ghost predicate MapDone(mem: Memory, free: set<nat>, mem': Memory, free': set<nat>, root: nat, v: nat, w: Word) {
    && Tables(mem', root, free')
    && Entry(mem', root, v) == w && SameBut(mem, mem', root, v, v + 1)
    && Touched(mem, free, mem', free', root, DirIndex(v))
    && Present(mem'[root][DirIndex(v)])
  }

  /** A table was entered for page `v` if there was none. */
  ghost predicate TableReady(mem: Memory, free: set<nat>, mem': Memory, free': set<nat>, root: nat, v: nat) {
    && Tables(mem', root, free') && SameBut(mem, mem', root, 0, 0)
    && Touched(mem, free, mem', free', root, DirIndex(v))
    && Present(mem'[root][DirIndex(v)])
  }

  lemma EnteredFor(mem: Memory, root: nat, free: set<nat>, v: nat, f: nat, e: Word)
    requires Tables(mem, root, free) && v < WINDOW && f in free && !Present(mem[root][DirIndex(v)])
    requires Present(e) && Frame(e) == f && !e.top
    ensures DirIndex(v) < SELF && TableReady(mem, free, TableAdded(mem, root, DirIndex(v), f, e), free - {f}, root, v)
  {
    TableEntered(mem, root, free, DirIndex(v), f, e);
  }

  lemma MappedIn(mem: Memory, free: set<nat>, mem1: Memory, free1: set<nat>, root: nat, v: nat, w: Word)
    requires TableReady(mem, free, mem1, free1, root, v) && v < WINDOW && !w.top
    ensures DirIndex(v) < SELF
    ensures var f := Frame(mem1[root][DirIndex(v)]);
            f in mem1 && f != root && MapDone(mem, free, Put(mem1, f, TblIndex(v), w), free1, root, v, w)
  {
    EntryWritten(mem1, root, free1, v, w);
    assert IsTable(mem1, root, DirIndex(v), Frame(mem1[root][DirIndex(v)]));
  }

  lemma ReadyAlready(mem: Memory, root: nat, free: set<nat>, v: nat)
    requires Tables(mem, root, free) && v < WINDOW && Present(mem[root][DirIndex(v)])
    ensures TableReady(mem, free, mem, free, root, v)
  {
  }

  /** The words of directory and tables have bit 31 clear. */
  lemma EntryLow(mem: Memory, root: nat, free: set<nat>, v: nat)
    requires Tables(mem, root, free) && v < WINDOW
    ensures !Entry(mem, root, v).top && !mem[root][DirIndex(v)].top
  {
    Table(mem, root, free, v);
  }

  /** A new frame for the directory entry of `v` leaves the window and the directory page in place. */
  lemma StillActive(mem: Memory, root: nat, free: set<nat>, dir: nat, v: nat, f: nat, e: Word)
    requires Tables(mem, root, free) && v < WINDOW && f in free && !Present(mem[root][DirIndex(v)])
    requires Present(e) && Frame(e) == f
    ensures Entry(Put(mem, root, DirIndex(v), e), root, WINDOW + DirIndex(v)) == e
  {
    WindowShows(Put(mem, root, DirIndex(v), e), root, DirIndex(v));
  }

  lemma FlatAfterMap(mem: Memory, mem': Memory, root: nat, v: nat)
    requires v < WINDOW && SameBut(mem, mem', root, v, v + 1) && Present(Entry(mem', root, v))
    ensures Flat(mem', root) == Flat(mem, root)[v := Frame(Entry(mem', root, v))]
  {
    forall u: nat | u < WINDOW
      ensures u != v ==> Walk(mem', root, u) == Walk(mem, root, u)
    {
      if u != v {
        assert Entry(mem', root, u) == Entry(mem, root, u);
      }
    }
  }

  /** The map without the pages from `lo` up to `hi`. */
  ghost function Without(m: map<nat, nat>, lo: nat, hi: nat): map<nat, nat> {
    map u | u in m && !(lo <= u < hi) :: m[u]
  }

  lemma FlatAfterUnmap(mem: Memory, mem': Memory, root: nat, lo: nat, hi: nat)
    requires SameBut(mem, mem', root, lo, hi)
    requires forall u: nat :: lo <= u < hi && u < WINDOW ==> !Present(Entry(mem', root, u))
    ensures Flat(mem', root) == Without(Flat(mem, root), lo, hi)
  {
    forall u: nat | u < WINDOW
      ensures !(lo <= u < hi) ==> Walk(mem', root, u) == Walk(mem, root, u)
    {
      if !(lo <= u < hi) {
        assert Entry(mem', root, u) == Entry(mem, root, u);
      }
    }
  }

  /** The table of page `v` shows through the window, with the entry of `v` in it. */
  lemma TableShown(mem: Memory, root: nat, free: set<nat>, v: nat)
    requires Tables(mem, root, free) && v < WINDOW && Present(mem[root][DirIndex(v)])
    ensures Walk(mem, root, WINDOW + DirIndex(v)) == Some(Frame(mem[root][DirIndex(v)]))
    ensures Frame(mem[root][DirIndex(v)]) in mem
    ensures mem[Frame(mem[root][DirIndex(v)])][TblIndex(v)] == Entry(mem, root, v)
  {
    Table(mem, root, free, v);
    WindowShows(mem, root, DirIndex(v));
  }

  /** A page's entry was cleared if it was present, and nothing else changed. */
  ghost predicate UnmapDone(mem: Memory, free: set<nat>, mem': Memory, root: nat, v: nat) {
    && Tables(mem', root, free)
    && Entry(mem', root, v) == (if Present(Entry(mem, root, v)) then NO else Entry(mem, root, v))
    && SameBut(mem, mem', root, v, v + 1)
    && Touched(mem, free, mem', free, root, DirIndex(v))
  }

  lemma NotMapped(mem: Memory, free: set<nat>, root: nat, v: nat)
    requires Tables(mem, root, free) && v < WINDOW && !Present(Entry(mem, root, v))
    ensures UnmapDone(mem, free, mem, root, v)
  {
    InWindow(v);
  }

  lemma MappedOut(mem: Memory, free: set<nat>, root: nat, v: nat)
    requires Tables(mem, root, free) && v < WINDOW && Present(Entry(mem, root, v))
    ensures var f := Frame(mem[root][DirIndex(v)]);
            f in mem && UnmapDone(mem, free, Put(mem, f, TblIndex(v), NO), root, v)
  {
    ReadyAlready(mem, root, free, v);
    MappedIn(mem, free, mem, free, root, v, NO);
  }

  lemma ReadyTable(mem: Memory, free: set<nat>, mem1: Memory, free1: set<nat>, root: nat, v: nat)
    requires TableReady(mem, free, mem1, free1, root, v) && v < WINDOW
    ensures Tables(mem1, root, free1) && root in mem1 && DirIndex(v) < SELF && Present(mem1[root][DirIndex(v)])
    ensures Entry(mem1, root, v) == Entry(mem, root, v)
  {
    InWindow(v);
  }

  lemma Written(mem: Memory, free: set<nat>, root: nat, v: nat, physical: Word, flags: bv12)
    requires Tables(mem, root, free) && v < WINDOW && !physical.top && flags & PRESENT == PRESENT
    ensures var w := FrameSet(FlagSet(Entry(mem, root, v), flags), physical);
            !w.top && Present(w) && Frame(w) == Frame(physical)
  {
    EntryLow(mem, root, free, v);
    FlagsStay(Entry(mem, root, v), physical, flags);
  }

  lemma MapDoneFacts(mem: Memory, free: set<nat>, mem': Memory, free': set<nat>, root: nat, v: nat, w: Word)
    requires MapDone(mem, free, mem', free', root, v, w)
    ensures Tables(mem', root, free') && SameBut(mem, mem', root, v, v + 1) && Entry(mem', root, v) == w
    ensures Touched(mem, free, mem', free', root, DirIndex(v))
  {
  }

  lemma UnmapDoneFacts(mem: Memory, free: set<nat>, mem': Memory, root: nat, v: nat)
    requires UnmapDone(mem, free, mem', root, v)
    ensures Tables(mem', root, free) && SameBut(mem, mem', root, v, v + 1) && !Present(Entry(mem', root, v))
    ensures Touched(mem, free, mem', free, root, DirIndex(v)) && mem'.Keys == mem.Keys
  {
  }

  lemma NoTable(mem: Memory, root: nat, v: nat)
    requires root in mem && DirIndex(v) < ENTRIES && !Present(mem[root][DirIndex(v)])
    ensures !Present(Entry(mem, root, v))
  {
  }

  /** The recursive entry shows the directory as the table of the window's pages. */
  lemma DirectoryShown(mem: Memory, root: nat, free: set<nat>, i: nat)
    requires Tables(mem, root, free) && i < ENTRIES
    ensures root in mem && DirIndex(WINDOW + i) == SELF && TblIndex(WINDOW + i) == i
    ensures Walk(mem, root, WINDOW + SELF) == Some(root) && Entry(mem, root, WINDOW + i) == mem[root][i]
  {
    WindowShows(mem, root, SELF);
    WindowShows(mem, root, i);
  }
}
