/** The user heap of `libs/c/stdlib.c` over `sbrk`, with its block headers in the process's memory. */
module UserHeap {
  import opened Mmap

  // struct malloc_block { uint32_t size; bool free; struct malloc_block *next, *prev; }
  const FREE: nat := 4
  const NEXT: nat := 8
  const HEADER: nat := 16

  // what the process's memory holds at an address; only mapped pages are ever accessed
  type Memory = nat -> nat

  // a block as its header describes it
  datatype Block = Block(addr: nat, size: nat, free: bool)

  function End(b: Block): nat { b.addr + HEADER + b.size }

  /** The blocks follow one another from `lo` up to `hi`. */
  ghost predicate Tile(bs: seq<Block>, lo: nat, hi: nat) {
    if bs == [] then lo == hi else bs[0].addr == lo && Tile(bs[1..], End(bs[0]), hi)
  }

  predicate Fits(b: Block, size: nat) { b.free && b.size >= size }

  /** `b` is the lowest fitting block of the list, or the new one at `end` if none fits. */
  ghost predicate FirstFit(bs: seq<Block>, end: nat, size: nat, k: nat, addr: nat) {
    && k <= |bs| && (forall j :: 0 <= j < k ==> !Fits(bs[j], size))
    && (if k < |bs| then Fits(bs[k], size) && addr == bs[k].addr else addr == end)
  }

  /** What `malloc` makes of the free block it takes. */
  function Parts(b: Block, size: nat): seq<Block>
    requires size <= b.size
  {
    if b.size > size + HEADER then
      [Block(b.addr, size, false), Block(b.addr + HEADER + size, b.size - size - HEADER, true)]
    else [b.(free := false)]
  }

  function Taken(bs: seq<Block>, k: nat, size: nat): seq<Block>
    requires k < |bs| && size <= bs[k].size
  {
    bs[..k] + Parts(bs[k], size) + bs[k + 1..]
  }

  lemma {:induction false} TileJoin(a: seq<Block>, b: seq<Block>, lo: nat, mid: nat, hi: nat)
    requires Tile(a, lo, mid) && Tile(b, mid, hi)
    ensures Tile(a + b, lo, hi)
  {
    if a == [] {
      assert a + b == b;
    } else {
      assert (a + b)[1..] == a[1..] + b;
      TileJoin(a[1..], b, End(a[0]), mid, hi);
    }
  }

  lemma {:induction false} TileSplit(bs: seq<Block>, lo: nat, hi: nat, k: nat)
    requires Tile(bs, lo, hi) && k < |bs|
    ensures Tile(bs[..k], lo, bs[k].addr) && Tile(bs[k + 1..], End(bs[k]), hi)
  {
    if k > 0 {
      assert bs[1..][k..] == bs[k + 1..];
      TileSplit(bs[1..], End(bs[0]), hi, k - 1);
      assert bs[..k][1..] == bs[1..][..k - 1];
    }
  }

  lemma {:induction false} TileLength(bs: seq<Block>, lo: nat, hi: nat)
    requires Tile(bs, lo, hi)
    ensures lo <= hi
  {
    if bs != [] {
      TileLength(bs[1..], End(bs[0]), hi);
    }
  }

  /** Every block lies between the ends. */
  lemma TileInside(bs: seq<Block>, lo: nat, hi: nat, i: nat)
    requires Tile(bs, lo, hi) && i < |bs|
    ensures lo <= bs[i].addr && End(bs[i]) <= hi
  {
    TileSplit(bs, lo, hi, i);
    TileLength(bs[..i], lo, bs[i].addr);
    TileLength(bs[i + 1..], End(bs[i]), hi);
  }

  lemma TileReplaced(bs: seq<Block>, lo: nat, hi: nat, k: nat, parts: seq<Block>)
    requires Tile(bs, lo, hi) && k < |bs| && Tile(parts, bs[k].addr, End(bs[k]))
    ensures Tile(bs[..k] + parts + bs[k + 1..], lo, hi)
  {
    TileSplit(bs, lo, hi, k);
    TileJoin(bs[..k], parts, lo, bs[k].addr, End(bs[k]));
    TileJoin(bs[..k] + parts, bs[k + 1..], lo, End(bs[k]), hi);
  }

  lemma TileOne(b: Block)
    ensures Tile([b], b.addr, End(b))
  {
    assert [b][1..] == [];
  }

  /** Taking a free block keeps the tiling. */
  lemma TileTaken(bs: seq<Block>, lo: nat, hi: nat, k: nat, size: nat)
    requires Tile(bs, lo, hi) && k < |bs| && size <= bs[k].size
    ensures Tile(Taken(bs, k, size), lo, hi)
  {
    var parts := Parts(bs[k], size);
    TileOne(parts[0]);
    if |parts| == 2 {
      TileOne(parts[1]);
      TileJoin([parts[0]], [parts[1]], bs[k].addr, End(parts[0]), End(bs[k]));
      assert parts == [parts[0]] + [parts[1]];
    }
    TileReplaced(bs, lo, hi, k, parts);
  }

  /** The block that is taken is in use, as large as asked, or by less than a header larger. */
  lemma TakenAt(bs: seq<Block>, k: nat, size: nat)
    requires k < |bs| && size <= bs[k].size
    ensures k < |Taken(bs, k, size)|
    ensures var b := Taken(bs, k, size)[k]; b.addr == bs[k].addr && !b.free && size <= b.size <= size + HEADER
  {
  }

  lemma TileMore(bs: seq<Block>, lo: nat, hi: nat, size: nat)
    requires Tile(bs, lo, hi)
    ensures Tile(bs + [Block(hi, size, false)], lo, hi + HEADER + size)
  {
    TileOne(Block(hi, size, false));
    TileJoin(bs, [Block(hi, size, false)], lo, hi, hi + HEADER + size);
  }

  lemma TileFreed(bs: seq<Block>, lo: nat, hi: nat, k: nat)
    requires Tile(bs, lo, hi) && k < |bs|
    ensures Tile(bs[k := bs[k].(free := true)], lo, hi)
  {
    var b := bs[k].(free := true);
    TileOne(b);
    TileReplaced(bs, lo, hi, k, [b]);
    assert bs[..k] + [b] + bs[k + 1..] == bs[k := b];
  }

  function FirstOf(bs: seq<Block>): nat { if bs == [] then 0 else bs[0].addr }

  function NextIn(bs: seq<Block>, i: nat): nat { if i + 1 < |bs| then bs[i + 1].addr else 0 }

  predicate HeaderIs(m: Memory, b: Block, next: nat) {
    m(b.addr) == b.size && (m(b.addr + FREE) != 0) == b.free && m(b.addr + NEXT) == next
  }

  /** The blocks linked from `first` are `bs`, in this order. */
  ghost predicate Headers(m: Memory, bs: seq<Block>, first: nat) {
    first == FirstOf(bs) &&
    forall i {:trigger NextIn(bs, i)} :: 0 <= i < |bs| ==> HeaderIs(m, bs[i], NextIn(bs, i))
  }

  ghost predicate SameOutside(m: Memory, m': Memory, lo: nat, hi: nat) {
    forall a: nat :: a < lo || hi <= a ==> m'(a) == m(a)
  }

  /** What the block holds behind its header is the same. */
  ghost predicate SamePayload(m: Memory, m': Memory, b: Block) {
    forall a: nat :: b.addr + HEADER <= a < End(b) ==> m'(a) == m(a)
  }

  /** All blocks but the `k`-th hold what they held. */
  ghost predicate OthersKept(m: Memory, m': Memory, bs: seq<Block>, k: nat) {
    forall i :: 0 <= i < |bs| && i != k ==> SamePayload(m, m', bs[i])
  }

  ghost predicate InWords(bs: seq<Block>) {
    forall i :: 0 <= i < |bs| ==> bs[i].size % 4 == 0
  }

  /** Blocks do not overlap. */
  lemma TileApart(bs: seq<Block>, lo: nat, hi: nat, i: nat, k: nat)
    requires Tile(bs, lo, hi) && i < |bs| && k < |bs| && i != k
    ensures if i < k then End(bs[i]) <= bs[k].addr else End(bs[k]) <= bs[i].addr
  {
    TileSplit(bs, lo, hi, k);
    if i < k {
      TileInside(bs[..k], lo, bs[k].addr, i);
    } else {
      TileInside(bs[k + 1..], End(bs[k]), hi, i - k - 1);
    }
  }

  /** Writes inside one block reach no other. */
  lemma WrittenInside(m: Memory, m': Memory, bs: seq<Block>, lo: nat, hi: nat, k: nat)
    requires Tile(bs, lo, hi) && k < |bs| && SameOutside(m, m', bs[k].addr, End(bs[k]))
    ensures OthersKept(m, m', bs, k)
    ensures forall i, next :: 0 <= i < |bs| && i != k ==> HeaderIs(m', bs[i], next) == HeaderIs(m, bs[i], next)
  {
    forall i | 0 <= i < |bs| && i != k
      ensures SamePayload(m, m', bs[i])
      ensures forall next :: HeaderIs(m', bs[i], next) == HeaderIs(m, bs[i], next)
    {
      TileApart(bs, lo, hi, i, k);
    }
  }

  /** The word `w` was written at `a`. */
  ghost predicate Stored(m: Memory, m': Memory, a: nat, w: nat) {
    m'(a) == w && forall x: nat :: x != a ==> m'(x) == m(x)
  }

  lemma StoredElsewhere(m: Memory, m': Memory, a: nat, w: nat, x: nat)
    requires Stored(m, m', a, w) && x != a
    ensures m'(x) == m(x)
  {
  }

  /** The five writes of a split, one after the other. */
  lemma SplitStored(m: Memory, m1: Memory, m2: Memory, m3: Memory, m4: Memory, m5: Memory, b: nat, size: nat,
      all: nat, next: nat)
    requires HeaderIs(m, Block(b, all, false), next) && size + HEADER < all
    requires var s := b + HEADER + size;
             && Stored(m, m1, s + FREE, 1) && Stored(m1, m2, s, all - size - HEADER)
             && Stored(m2, m3, s + NEXT, next) && Stored(m3, m4, b, size) && Stored(m4, m5, b + NEXT, s)
    ensures SameOutside(m, m5, b, b + HEADER + all)
    ensures HeaderIs(m5, Block(b, size, false), b + HEADER + size)
    ensures HeaderIs(m5, Block(b + HEADER + size, all - size - HEADER, true), next)
  {
  }

  /** The writes of `malloc` to the block it takes. */
  ghost predicate TakenWritten(m: Memory, m': Memory, b: Block, size: nat, next: nat)
    requires size <= b.size
  {
    && SameOutside(m, m', b.addr, End(b))
    && var parts := Parts(b, size);
       && HeaderIs(m', parts[0], if |parts| == 2 then parts[1].addr else next)
       && (|parts| == 2 ==> HeaderIs(m', parts[1], next))
  }

  lemma HeaderWords(m: Memory, b: Block, next: nat)
    requires HeaderIs(m, b, next)
    ensures m(b.addr) == b.size && m(b.addr + NEXT) == next
  {
  }

  lemma FlagCleared(m: Memory, m': Memory, b: Block, next: nat)
    requires HeaderIs(m, b, next) && Stored(m, m', b.addr + FREE, 0)
    ensures HeaderIs(m', b.(free := false), next) && SameOutside(m, m', b.addr, End(b))
  {
  }

  lemma PartsWritten(m: Memory, m1: Memory, m': Memory, b: Block, size: nat, next: nat)
    requires size <= b.size && SameOutside(m, m1, b.addr, End(b)) && HeaderIs(m1, b.(free := false), next)
    requires b.size <= size + HEADER ==> m' == m1
    requires b.size > size + HEADER ==>
               && SameOutside(m1, m', b.addr, End(b))
               && HeaderIs(m', Block(b.addr, size, false), b.addr + HEADER + size)
               && HeaderIs(m', Block(b.addr + HEADER + size, b.size - size - HEADER, true), next)
    ensures TakenWritten(m, m', b, size, next)
  {
  }

  lemma HeadersTaken(m: Memory, m': Memory, bs: seq<Block>, first: nat, lo: nat, hi: nat, k: nat, size: nat)
    requires Tile(bs, lo, hi) && Headers(m, bs, first) && k < |bs| && size <= bs[k].size
    requires TakenWritten(m, m', bs[k], size, NextIn(bs, k))
    ensures Headers(m', Taken(bs, k, size), first) && OthersKept(m, m', bs, k)
  {
    hide Tile;
    WrittenInside(m, m', bs, lo, hi, k);
    var parts, bs' := Parts(bs[k], size), Taken(bs, k, size);
    assert parts[0].addr == bs[k].addr;
    forall i | 0 <= i < |bs'|
      ensures HeaderIs(m', bs'[i], NextIn(bs', i))
    {
      if i < k {
        assert HeaderIs(m, bs[i], NextIn(bs, i));
      } else if i >= k + |parts| {
        assert HeaderIs(m, bs[i + 1 - |parts|], NextIn(bs, i + 1 - |parts|));
      }
    }
  }

  lemma WordsTaken(bs: seq<Block>, k: nat, size: nat)
    requires InWords(bs) && k < |bs| && size <= bs[k].size && size % 4 == 0
    ensures InWords(Taken(bs, k, size))
  {
    var bs' := Taken(bs, k, size);
    forall i | 0 <= i < |bs'|
      ensures bs'[i].size % 4 == 0
    {
      var n := |Parts(bs[k], size)|;
      assert i < k ==> bs'[i] == bs[i];
      assert i >= k + n ==> bs'[i] == bs[i + 1 - n];
    }
  }

  /** The writes of `malloc_get`: the header of a new block, and the link of the last one to it. */
  ghost predicate NewWritten(m: Memory, m': Memory, last: nat, addr: nat, size: nat) {
    && HeaderIs(m', Block(addr, size, false), 0) && (last != 0 ==> m'(last + NEXT) == addr)
    && forall a :: a != addr && a != addr + FREE && a != addr + NEXT && (last == 0 || a != last + NEXT) ==>
         m'(a) == m(a)
  }

  function LastOf(bs: seq<Block>): nat { if bs == [] then 0 else bs[|bs| - 1].addr }

  /** A block other than the last keeps its header, and the last one all but its link. */
  lemma HeaderBefore(m: Memory, m': Memory, bs: seq<Block>, lo: nat, hi: nat, i: nat, size: nat)
    requires Tile(bs, lo, hi) && lo > 0 && i < |bs| && NewWritten(m, m', LastOf(bs), hi, size)
    requires HeaderIs(m, bs[i], NextIn(bs, i))
    ensures HeaderIs(m', bs[i], if i + 1 < |bs| then bs[i + 1].addr else hi) && SamePayload(m, m', bs[i])
  {
    TileInside(bs, lo, hi, i);
    TileInside(bs, lo, hi, |bs| - 1);
    if i + 1 < |bs| {
      TileApart(bs, lo, hi, i, |bs| - 1);
    }
    hide Tile;
  }

  lemma HeadersMore(m: Memory, m': Memory, bs: seq<Block>, first: nat, lo: nat, hi: nat, size: nat)
    requires Tile(bs, lo, hi) && lo > 0 && Headers(m, bs, first) && NewWritten(m, m', LastOf(bs), hi, size)
    ensures Headers(m', bs + [Block(hi, size, false)], if bs == [] then hi else first)
    ensures OthersKept(m, m', bs, |bs|)
  {
    hide Tile, HeaderIs, SamePayload, LastOf;
    var bs' := bs + [Block(hi, size, false)];
    forall i | 0 <= i < |bs|
      ensures HeaderIs(m', bs'[i], NextIn(bs', i)) && SamePayload(m, m', bs[i])
    {
      HeaderBefore(m, m', bs, lo, hi, i, size);
    }
  }

  lemma FlagSet(m: Memory, m': Memory, b: Block, next: nat)
    requires HeaderIs(m, b, next) && Stored(m, m', b.addr + FREE, 1)
    ensures HeaderIs(m', b.(free := true), next) && SameOutside(m, m', b.addr, End(b))
  {
  }

  lemma HeadersFreed(m: Memory, m': Memory, bs: seq<Block>, first: nat, lo: nat, hi: nat, k: nat)
    requires Tile(bs, lo, hi) && Headers(m, bs, first) && k < |bs|
    requires Stored(m, m', bs[k].addr + FREE, 1)
    ensures Headers(m', bs[k := bs[k].(free := true)], first)
  {
    hide Tile, HeaderIs, SameOutside, OthersKept, Stored;
    var bs' := bs[k := bs[k].(free := true)];
    FlagSet(m, m', bs[k], NextIn(bs, k));
    WrittenInside(m, m', bs, lo, hi, k);
    forall i | 0 <= i < |bs'|
      ensures HeaderIs(m', bs'[i], NextIn(bs', i))
    {
      assert HeaderIs(m, bs[i], NextIn(bs, i));
      assert NextIn(bs', i) == NextIn(bs, i);
    }
  }

  ghost predicate InPayload(bs: seq<Block>, a: nat) {
    exists i :: 0 <= i < |bs| && bs[i].addr + HEADER <= a < End(bs[i])
  }

  /** A program that writes only behind the headers of blocks leaves the heap as it is. */
  lemma PayloadsWritten(m: Memory, m': Memory, bs: seq<Block>, first: nat, lo: nat, hi: nat)
    requires Tile(bs, lo, hi) && Headers(m, bs, first)
    requires forall a: nat :: !InPayload(bs, a) ==> m'(a) == m(a)
    ensures Headers(m', bs, first)
  {
    hide Tile;
    forall i | 0 <= i < |bs|
      ensures HeaderIs(m', bs[i], NextIn(bs, i))
    {
      assert HeaderIs(m, bs[i], NextIn(bs, i));
      forall a: nat | bs[i].addr <= a < bs[i].addr + HEADER
        ensures !InPayload(bs, a)
      {
        if j :| 0 <= j < |bs| && bs[j].addr + HEADER <= a < End(bs[j]) {
          if j != i {
            TileApart(bs, lo, hi, j, i);
          }
          assert false;
        }
      }
    }
  }

  function AlignUp(size: nat): nat { (size + 3) / 4 * 4 }

  lemma AlignedUp(size: nat)
    ensures AlignUp(size) % 4 == 0 && size <= AlignUp(size) < size + 4
  {
  }

  class Heap {
    const mm: Mm
    // malloc_blocks, 0 for NULL; malloc_current; malloc_remaining
    var first: nat
    var current: nat
    var remaining: nat
    var mem: Memory

    ghost var blocks: seq<Block>
    ghost var bottom: nat

    constructor (mm: Mm, mem: Memory)
      requires mm.Valid() && mm.brk > 0
      ensures Valid() && this.mm == mm && this.mem == mem && current == 0 && blocks == []
    {
      this.mm, this.mem, first, current, remaining, blocks, bottom := mm, mem, 0, 0, 0, [], 0;
    }

    /** The blocks are those in memory.  Once there is one, what is left of the last page ends at the
        kernel's break. */
    ghost predicate Valid()
      reads this, mm
    {
      && mm.Valid() && mm.brk > 0 && Headers(mem, blocks, first) && InWords(blocks)
      && (if current == 0 then blocks == [] && remaining == 0
          else
            OnPage(mm.brk) && current + remaining == mm.brk &&
            mm.brkStart <= bottom && 0 < bottom && Tile(blocks, bottom, current))
    }

    /** The pages of the word at `a` are mapped. */
    ghost predicate Usable(a: nat)
      reads mm
    {
      forall p :: p % PAGE == 0 && a - PAGE < p < a + 4 ==> p in mm.mapped
    }

    lemma BelowBreak(a: nat)
      requires mm.Valid() && mm.brkStart <= a && a + 4 <= mm.brk
      ensures Usable(a)
    {
    }

    function Load(a: nat): nat
      reads this`mem, mm
      requires Usable(a)
    {
      mem(a)
    }

    method Store(a: nat, w: nat)
      requires Usable(a)
      modifies this`mem
      ensures Stored(old(mem), mem, a, w)
    {
      var m := mem;
      mem := (x: nat) => if x == a then w else m(x);
    }

    /** `sbrk` */
    method Sbrk(increment: nat) returns (base: nat)
      requires mm.Valid() && mm.brk > 0
      modifies mm`brk, mm`areas, mm`mapped, mm`nextFrame
      ensures mm.Valid() && base == old(mm.brk) && mm.brk == PageAlign(old(mm.brk) + increment)
      ensures GrownTo(old(mm.areas), mm.areas, mm.heap, mm.brk)
    {
      hide PageAlign;
      var brk := mm.SyscallBrk(0);
      base := brk;
      var r := mm.SyscallBrk(base + increment);
    }

    /** The heap has a bottom, and what is left of its last page, if anything, ends at the break. */
    ghost predicate Begun()
      reads this, mm
    {
      && mm.Valid() && mm.brk > 0 && current != 0 && OnPage(mm.brk)
      && current + remaining <= mm.brk && (remaining > 0 ==> current + remaining == mm.brk)
      && mm.brkStart <= bottom && 0 < bottom && Tile(blocks, bottom, current)
    }

    /** The first block starts at the break, which moves to a page boundary. */
    method Begin()
      requires Valid()
      modifies this`current, this`bottom, mm`brk, mm`areas, mm`mapped, mm`nextFrame
      ensures Begun() && mm.brk >= old(mm.brk) && GrownTo(old(mm.areas), mm.areas, mm.heap, mm.brk)
      ensures old(current) != 0 ==> current == old(current) && bottom == old(bottom) && mm.brk == old(mm.brk)
      ensures old(current) != 0 ==> current + remaining == mm.brk
    {
      hide PageAlign, OnPage, Headers, InWords;
      PageAlignIs(mm.brk);
      BreakInArea();
      if current == 0 {
        bottom := mm.brk;
        current := Sbrk(0);
      }
    }

    lemma BreakInArea()
      requires mm.Valid()
      ensures GrownTo(mm.areas, mm.areas, mm.heap, mm.brk)
    {
      assert mm.areas[mm.heap := mm.areas[mm.heap]] == mm.areas;
    }

    /** The move of `malloc_current`, for which the break moves if the last page is full. */
    method Extend(target: nat) returns (base: nat)
      requires Valid() && target > 0
      modifies this`current, this`remaining, this`bottom, mm`brk, mm`areas, mm`mapped, mm`nextFrame
      ensures mm.Valid() && mm.brk > 0 && OnPage(mm.brk) && current + remaining == mm.brk
      ensures mm.brkStart <= bottom && 0 < bottom && Tile(blocks, bottom, base) && current == base + target
      ensures old(current) != 0 ==> base == old(current) && bottom == old(bottom)
      ensures old(current) != 0 && target <= old(remaining) ==> mm.brk == old(mm.brk)
      ensures GrownTo(old(mm.areas), mm.areas, mm.heap, mm.brk) && mm.brk >= old(mm.brk)
    {
      hide Tile, PageAlign, OnPage, GrownTo, Headers, InWords;
      Begin();
      ghost var areas1, brk1 := mm.areas, mm.brk;
      base := current;
      if target <= remaining {
        remaining := remaining - target;
      } else {
        PageAlignIs(mm.brk + target);
        var limit := Sbrk(target);
        GrownTwice(old(mm.areas), areas1, mm.areas, mm.heap, brk1, mm.brk);
        ghost var areas2, brk2 := mm.areas, mm.brk;
        PageAlignIs(mm.brk);
        var brk := Sbrk(0);
        GrownTwice(old(mm.areas), areas2, mm.areas, mm.heap, brk2, mm.brk);
        remaining := brk - (current + target);
      }
      current := current + target;
    }

    /** `malloc_get`: a new block at the end, linked behind the last one. */
    method Get(last: nat, size: nat) returns (addr: nat)
      requires Valid() && size % 4 == 0 && last == LastOf(blocks)
      modifies this`current, this`remaining, this`bottom, this`mem, this`blocks
      modifies mm`brk, mm`areas, mm`mapped, mm`nextFrame
      ensures mm.Valid() && mm.brk > 0 && OnPage(mm.brk) && current + remaining == mm.brk
      ensures mm.brkStart <= bottom && 0 < bottom && Tile(blocks, bottom, current)
      ensures Headers(mem, blocks, if old(blocks) == [] then addr else first) && InWords(blocks)
      ensures addr > 0 && current == addr + HEADER + size
      ensures old(current) != 0 ==> addr == old(current) && bottom == old(bottom)
      ensures blocks == old(blocks) + [Block(addr, size, false)]
      ensures NewWritten(old(mem), mem, last, addr, size) && OthersKept(old(mem), mem, old(blocks), |old(blocks)|)
      ensures old(current) != 0 && size + HEADER <= old(remaining) ==> mm.brk == old(mm.brk)
      ensures GrownTo(old(mm.areas), mm.areas, mm.heap, mm.brk) && mm.brk >= old(mm.brk)
    {
      hide Tile, PageAlign, OnPage, GrownTo, Headers, HeaderIs, NewWritten, OthersKept;
      addr := Extend(size + HEADER);
      TileLength(blocks, bottom, addr);
      if last != 0 {
        TileInside(blocks, bottom, addr, |blocks| - 1);
      }
      WriteNew(last, addr, size);
      HeadersMore(old(mem), mem, blocks, first, bottom, addr, size);
      TileMore(blocks, bottom, addr, size);
      blocks := blocks + [Block(addr, size, false)];
    }

    method WriteNew(last: nat, addr: nat, size: nat)
      requires mm.Valid() && mm.brkStart <= addr && addr + HEADER <= mm.brk
      requires last != 0 ==> mm.brkStart <= last && last + HEADER <= addr
      modifies this`mem
      ensures NewWritten(old(mem), mem, last, addr, size)
    {
      if last != 0 {
        BelowBreak(last + NEXT);
        Store(last + NEXT, addr);
      }
      BelowBreak(addr);
      BelowBreak(addr + NEXT);
      BelowBreak(addr + FREE);
      Store(addr, size);
      Store(addr + NEXT, 0);
      Store(addr + FREE, 0);
    }

    /** Every header lies in mapped memory, above 0. */
    lemma HeaderUsable(i: nat)
      requires Valid() && i < |blocks|
      ensures 0 < blocks[i].addr && Usable(blocks[i].addr) && Usable(blocks[i].addr + FREE) &&
              Usable(blocks[i].addr + NEXT)
      ensures HeaderIs(mem, blocks[i], NextIn(blocks, i))
    {
      hide Tile;
      TileInside(blocks, bottom, current, i);
      BelowBreak(blocks[i].addr);
      BelowBreak(blocks[i].addr + FREE);
      BelowBreak(blocks[i].addr + NEXT);
    }

    /** The search of `malloc`: the first block that is free and large enough. */
    method Find(size: nat) returns (block: nat, last: nat, ghost k: nat)
      requires Valid() && first != 0
      ensures k <= |blocks| && (forall j :: 0 <= j < k ==> !Fits(blocks[j], size))
      ensures if k < |blocks| then Fits(blocks[k], size) && block == blocks[k].addr && block != 0
              else block == 0 && last == LastOf(blocks)
    {
      hide Tile, OnPage, InWords, Headers, Usable, Mm.Valid;
      FirstIsNull();
      block, last, k := first, first, 0;
      HeaderUsable(0);
      while block != 0 && !(Load(block + FREE) != 0 && Load(block) >= size)
        invariant k <= |blocks| && block == (if k < |blocks| then blocks[k].addr else 0)
        invariant k > 0 ==> last == blocks[k - 1].addr
        invariant k < |blocks| ==>
                  block != 0 && Usable(block) && Usable(block + FREE) && HeaderIs(mem, blocks[k], NextIn(blocks, k))
        invariant forall j :: 0 <= j < k ==> !Fits(blocks[j], size)
        decreases |blocks| - k
      {
        HeaderUsable(k);
        last := block;
        block := Load(block + NEXT);
        k := k + 1;
        if k < |blocks| {
          HeaderUsable(k);
        }
      }
    }

    /** `malloc` takes a free block, and splits it if the rest has room for more than a header. */
    method Take(block: nat, size: nat, ghost k: nat)
      requires Valid() && k < |blocks| && block == blocks[k].addr && size <= blocks[k].size && size % 4 == 0
      modifies this`mem, this`blocks
      ensures Valid() && blocks == Taken(old(blocks), k, size) && OthersKept(old(mem), mem, old(blocks), k)
    {
      hide Tile, OnPage, Headers, HeaderIs, InWords, TakenWritten, OthersKept, Taken;
      ghost var b := blocks[k];
      TileInside(blocks, bottom, current, k);
      HeaderUsable(k);
      WriteTaken(block, size, b, NextIn(blocks, k));
      HeadersTaken(old(mem), mem, blocks, first, bottom, current, k, size);
      WordsTaken(blocks, k, size);
      TileTaken(blocks, bottom, current, k, size);
      blocks := Taken(blocks, k, size);
    }

    method WriteTaken(block: nat, size: nat, ghost b: Block, ghost next: nat)
      requires mm.Valid() && block == b.addr && size <= b.size && HeaderIs(mem, b, next)
      requires mm.brkStart <= block && End(b) <= mm.brk
      modifies this`mem
      ensures TakenWritten(old(mem), mem, b, size, next)
    {
      hide Usable, Tile, OnPage, Mm.Valid, Stored, TakenWritten, HeaderIs;
      ghost var m0 := mem;
      BelowBreak(block);
      BelowBreak(block + FREE);
      Store(block + FREE, 0);
      ghost var m1 := mem;
      FlagCleared(m0, m1, b, next);
      HeaderWords(m1, b.(free := false), next);
      if Load(block) > size + HEADER {
        WriteSplit(block, size, b.size, next);
      }
      PartsWritten(m0, m1, mem, b, size, next);
    }

    /** The rest of a block becomes one of its own, linked behind it. */
    method WriteSplit(block: nat, size: nat, ghost all: nat, ghost next: nat)
      requires mm.Valid() && mm.brkStart <= block && block + HEADER + all <= mm.brk && size + HEADER < all
      requires HeaderIs(mem, Block(block, all, false), next)
      modifies this`mem
      ensures SameOutside(old(mem), mem, block, block + HEADER + all)
      ensures HeaderIs(mem, Block(block, size, false), block + HEADER + size)
      ensures HeaderIs(mem, Block(block + HEADER + size, all - size - HEADER, true), next)
    {
      hide Usable, Tile, OnPage, Mm.Valid, Stored, SameOutside, HeaderIs;
      HeaderWords(mem, Block(block, all, false), next);
      var split := block + HEADER + size;
      BelowBreak(split);
      BelowBreak(split + FREE);
      BelowBreak(split + NEXT);
      BelowBreak(block);
      BelowBreak(block + NEXT);
      ghost var m0 := mem;
      Store(split + FREE, 1);
      ghost var m1 := mem;
      StoredElsewhere(m0, m1, split + FREE, 1, block);
      Store(split, Load(block) - size - HEADER);
      ghost var m2 := mem;
      StoredElsewhere(m0, m1, split + FREE, 1, block + NEXT);
      StoredElsewhere(m1, m2, split, all - size - HEADER, block + NEXT);
      Store(split + NEXT, Load(block + NEXT));
      ghost var m3 := mem;
      Store(block, size);
      ghost var m4 := mem;
      Store(block + NEXT, split);
      SplitStored(m0, m1, m2, m3, m4, mem, block, size, all, next);
    }

    /** `malloc` of a size rounded up to words: first fit, growing only if nothing fits.  Every other
        block holds what it held. */
    method Malloc(size0: nat) returns (p: nat, ghost k: nat)
      requires Valid() && size0 < 0x8000_0000
      modifies this, mm`brk, mm`areas, mm`mapped, mm`nextFrame
      ensures Valid()
      ensures GrownTo(old(mm.areas), mm.areas, mm.heap, mm.brk) && mm.brk >= old(mm.brk)
      ensures size0 == 0 ==> p == 0 && blocks == old(blocks) && current == old(current) && mem == old(mem)
      ensures size0 > 0 ==> current != 0 && p >= HEADER
      ensures size0 > 0 && old(current) != 0 ==> FirstFit(old(blocks), old(current), AlignUp(size0), k, p - HEADER)
      ensures size0 > 0 && k < |old(blocks)| ==>
              old(blocks)[k].size >= AlignUp(size0) &&
              blocks == Taken(old(blocks), k, AlignUp(size0)) && mm.brk == old(mm.brk)
      ensures size0 > 0 && k >= |old(blocks)| ==> blocks == old(blocks) + [Block(p - HEADER, AlignUp(size0), false)]
      ensures size0 > 0 ==> OthersKept(old(mem), mem, old(blocks), k)
      ensures size0 > 0 ==>
              && k < |blocks| && blocks[k].addr == p - HEADER && !blocks[k].free
              && size0 <= blocks[k].size < size0 + 4 + HEADER
    {
      hide Tile, PageAlign, OnPage, Parts, Taken, AlignUp, GrownTo, Headers, HeaderIs, InWords, OthersKept, NewWritten;
      BreakInArea();
      p, k := 0, 0;
      if size0 == 0 {
        return;
      }
      AlignedUp(size0);
      FirstIsNull();
      var size := AlignUp(size0);
      if first != 0 {
        var block, last;
        block, last, k := Find(size);
        if block != 0 {
          TakenAt(blocks, k, size);
          Take(block, size, k);
        } else {
          block := Get(last, size);
        }
        p := block + HEADER;
      } else {
        var block := Get(0, size);
        first := block;
        p := block + HEADER;
      }
    }

    lemma FirstIsNull()
      requires Valid()
      ensures (first == 0 <==> blocks == []) && first == FirstOf(blocks)
    {
      hide Tile;
      if blocks != [] {
        HeaderUsable(0);
      }
    }

    /** `free` of a block: one word of memory changes. */
    method Free(p: nat, ghost k: nat)
      requires Valid() && k < |blocks| && p == blocks[k].addr + HEADER
      modifies this`mem, this`blocks
      ensures Valid() && blocks == old(blocks)[k := old(blocks)[k].(free := true)]
      ensures Stored(old(mem), mem, p - HEADER + FREE, 1)
    {
      hide Tile, OnPage, Headers, HeaderIs, Stored;
      HeaderUsable(k);
      Store(p - HEADER + FREE, 1);
      HeadersFreed(old(mem), mem, blocks, first, bottom, current, k);
      TileFreed(blocks, bottom, current, k);
      blocks := blocks[k := blocks[k].(free := true)];
    }

    /** Every block lies in mapped pages of the heap area. */
    lemma BlocksMapped(i: nat)
      requires Valid() && i < |blocks|
      ensures mm.areas[mm.heap].start <= blocks[i].addr && End(blocks[i]) <= mm.brk <= mm.areas[mm.heap].end
      ensures forall p :: p % PAGE == 0 && blocks[i].addr - PAGE < p < End(blocks[i]) ==> p in mm.mapped
    {
      hide Tile, Headers, InWords;
      TileInside(blocks, bottom, current, i);
    }
  }
}
