/** The kernel heap of `kernel/utils/stdlib.c`: a first-fit allocator over `malloc_sbrk`, with its
    block headers in the memory it manages. */
module KernelHeap {
  import opened DList
  import opened HeapSpec

  function DivCeil(x: nat, y: nat): nat
    requires y > 0
  {
    x / y + if x % y > 0 then 1 else 0
  }

  /** `ALIGN_UP(size, 4)` in 32 bits. */
  function AlignUp(size: nat): (r: nat)
  {
    var sum := if size + 3 < 0x1_0000_0000 then size + 3 else size + 3 - 0x1_0000_0000;
    sum - sum % 4
  }

  lemma RoundedUp(current: nat, remaining: nat)
    requires remaining < PAGE && OnPage(current + remaining)
    ensures DivCeil(current, PAGE) * PAGE == current + remaining
  {
  }

  /** The pages that `malloc_sbrk` maps are as many as the frames it asks for. */
  lemma PagesForGrowth(limit: nat, missing: nat, v: nat)
    requires OnPage(limit) && OnPage(v) && limit + missing <= v < limit + missing + PAGE
    ensures v == limit + PAGE * DivCeil(missing, PAGE)
  {
  }

  lemma WordSum(a: nat, b: nat)
    requires OnWord(a) && OnWord(b)
    ensures OnWord(a + b) && OnWord(a + HEADER)
  {
  }

  /** The three largest sizes wrap around to nothing. */
  lemma Aligned(size: nat)
    requires size < 0x1_0000_0000
    ensures OnWord(AlignUp(size))
    ensures size + 3 < 0x1_0000_0000 ==> size <= AlignUp(size) < size + 4
    ensures size + 3 >= 0x1_0000_0000 ==> AlignUp(size) == 0
    ensures AlignUp(size) > MAX_BLOCK <==> MAX_BLOCK < size < 0x1_0000_0000 - 3
  {
  }

  lemma NothingTouched(mem: Words, T: seq<nat>, end: nat)
    requires Tiles(mem, T, end)
    ensures AllKept(mem, T, mem, T)
  {
    TilesMapped(mem, T, end);
  }

  /** The distance to the next page boundary is what `malloc_align` starts from. */
  lemma PaddingToPage(end: nat)
    requires OnWord(end) && !OnPage(end)
    ensures var padding := DivCeil(end, PAGE) * PAGE - end;
            0 < padding < PAGE && OnWord(padding) && OnPage(end + padding)
  {
    var q, r := end / PAGE, end % PAGE;
    assert end == q * PAGE + r && DivCeil(end, PAGE) == q + 1;
    assert (q * PAGE) % 4 == 0 && r % 4 == 0;
    assert end + (DivCeil(end, PAGE) * PAGE - end) == (q + 1) * PAGE;
  }

  /** What `malloc_align` adds to an unaligned heap end: the distance to the next page boundary that
      has room for two headers. */
  function Padding(end: nat): nat
    requires end < HEAP_LIMIT
  {
    var d := DivCeil(end, PAGE) * PAGE - end;
    DivCeilAbove(end);
    if d > 2 * HEADER then d else d + PAGE
  }

  lemma DivCeilAbove(end: nat)
    ensures DivCeil(end, PAGE) * PAGE >= end
  {
  }

  lemma PaddingFills(end: nat, padding: nat)
    requires OnWord(padding) && OnPage(end + padding) && padding > 2 * HEADER
    ensures OnWord(padding - 2 * HEADER) && end + padding - 2 * HEADER + HEADER + HEADER == end + padding
  {
  }

  lemma PageOfWords()
    ensures OnWord(PAGE)
  {
  }

  lemma OnePageMore(end: nat, padding: nat)
    requires OnWord(padding) && OnPage(end + padding)
    ensures OnWord(padding + PAGE) && OnPage(end + padding + PAGE)
  {
  }

  class Heap {
    // malloc_blocks, 0 for NULL; malloc_current; malloc_remaining
    var blocks: nat
    var current: nat
    var remaining: nat
    var mem: Words
    // the page table as far as the heap goes: virtual page to physical frame
    var table: map<nat, nat>
    // the next frame phys_mm_block_n_alloc hands out, and what memory held before
    var nextFrame: nat
    const dirt: nat -> nat
    // sys_panic was called
    var panicked: bool

    ghost var T: seq<nat>
    ghost var C: seq<nat>

    constructor (dirt: nat -> nat, frame: nat)
      ensures Valid() && T == [] && C == [] && current == HEAP_BOTTOM && !panicked
    {
      this.dirt, nextFrame := dirt, frame;
      blocks, current, remaining := 0, HEAP_BOTTOM, 0;
      mem, table := map[], map[];
      T, C, panicked := [], [], false;
    }

    function Limit(): nat
      reads this`current, this`remaining
    {
      current + remaining
    }

    /** How many blocks are not linked. */
    ghost function Lost(): int
      reads this`T, this`C
    {
      |T| - |C|
    }

    /** Every block of the heap, linked or not. */
    ghost function Members(): set<nat>
      reads this`T
    {
      set t | t in T
    }

    /** The list is complete exactly if no block is lost. */
    lemma NoneLost()
      requires Valid() && !panicked
      ensures Lost() >= 0 && (Lost() == 0 <==> C == T)
    {
      TilesDistinct(mem, T, current);
      SomeOf(C, T);
    }

    /** Less than a page is left over, up to a page boundary, and exactly the pages below that are
        mapped. */
    ghost predicate EndOk()
      reads this
    {
      && HEAP_BOTTOM <= current <= HEAP_LIMIT && OnWord(current)
      && remaining < PAGE && OnPage(Limit())
      && Mapped(mem, HEAP_BOTTOM, Limit())
      && Paged(table, Limit())
    }

    ghost predicate Valid()
      reads this
    {
      && EndOk()
      && (panicked || (Tiles(mem, T, current) && Chain(mem, blocks, T, C)))
    }

    /** One turn of the mapping loop: `virt_mm_map_addr` of a page with whatever its frame held. */
    method MapPage(virtual: nat, physical: nat)
      requires OnPage(virtual)
      modifies this`mem, this`table
      ensures table == old(table)[virtual := physical]
      ensures forall a :: a in mem <==> a in old(mem) || (virtual <= a < virtual + PAGE && a % 4 == 0)
      ensures forall a :: a in old(mem) && !(virtual <= a < virtual + PAGE) ==> mem[a] == old(mem)[a]
    {
      mem := mem + map a | virtual <= a < virtual + PAGE && a % 4 == 0 :: dirt(a);
      table := table[virtual := physical];
    }

    /** `memset(base, 0, n)` from a word boundary on; of the last word perhaps only the low bytes. */
    method Clear(base: nat, n: nat)
      requires forall a :: base <= a < base + n && a % 4 == 0 ==> a in mem
      modifies this`mem
      ensures mem.Keys == old(mem).Keys
      ensures forall a :: a in mem ==> mem[a] == Cleared(old(mem)[a], a, base, n)
    {
      mem := map a | a in mem :: Cleared(mem[a], a, base, n);
    }

    /** The mapping loop of `malloc_sbrk`: fresh frames in a row for the pages from `limit` on. */
    method MapPages(limit: nat, physical: nat, end: nat) returns (virtual: nat)
      requires HEAP_BOTTOM <= limit && OnPage(limit)
      requires Mapped(mem, HEAP_BOTTOM, limit) && Paged(table, limit)
      modifies this`mem, this`table
      ensures OnPage(virtual) && limit <= virtual && end <= virtual && (virtual > limit ==> virtual < end + PAGE)
      ensures Mapped(mem, HEAP_BOTTOM, virtual) && Paged(table, virtual)
      ensures Extended(old(table), table, limit, virtual, physical)
      ensures forall a :: a in old(mem) ==> a in mem && mem[a] == old(mem)[a]
    {
      hide Mapped, Paged, Extended, OnPage;
      virtual := limit;
      NothingExtended(table, limit, physical);
      while virtual < end
        invariant OnPage(virtual) && limit <= virtual && (virtual > limit ==> virtual < end + PAGE)
        invariant Mapped(mem, HEAP_BOTTOM, virtual) && Paged(table, virtual)
        invariant Extended(old(table), table, limit, virtual, physical)
        invariant forall a :: a in old(mem) ==> a in mem && mem[a] == old(mem)[a]
      {
        ghost var mem1, table1 := mem, table;
        NotMappedYet(mem, table, HEAP_BOTTOM, virtual);
        NotMappedYet(old(mem), old(table), HEAP_BOTTOM, limit);
        MapPage(virtual, physical + (virtual - limit));
        OnePageMapped(mem1, mem, HEAP_BOTTOM, virtual);
        OnePagePaged(table1, virtual, physical + (virtual - limit));
        OnePageExtended(old(table), table1, limit, virtual, physical);
        virtual := virtual + PAGE;
      }
    }

    /** The growing branch of `malloc_sbrk`: it asks for as many frames as the loop maps pages. */
    method Grow(increment: nat)
      requires EndOk() && OnWord(increment) && current + increment <= HEAP_LIMIT && increment > remaining
      modifies this`current, this`remaining, this`mem, this`table, this`nextFrame
      ensures current == old(current) + increment && EndOk()
      ensures Limit() - old(Limit()) == nextFrame - old(nextFrame)
      ensures Extended(old(table), table, old(Limit()), Limit(), old(nextFrame))
      ensures forall a :: a in old(mem) ==> a in mem && mem[a] == old(mem)[a]
    {
      hide DivCeil, Mapped, Paged, Extended, OnPage, OnWord;
      RoundedUp(current, remaining);
      WordSum(current, increment);
      ghost var limit := Limit();
      var physical := nextFrame;
      nextFrame := nextFrame + PAGE * DivCeil(increment - remaining, PAGE);
      var virtual := MapPages(DivCeil(current, PAGE) * PAGE, physical, current + increment);
      PagesForGrowth(limit, increment - remaining, virtual);
      remaining := virtual - (current + increment);
      current := current + increment;
    }

    /** `malloc_sbrk`.  The frames asked for are exactly those that get mapped. */
    method Sbrk(increment: nat) returns (base: nat)
      requires EndOk() && OnWord(increment) && current + increment <= HEAP_LIMIT
      modifies this`current, this`remaining, this`mem, this`table, this`nextFrame
      ensures base == old(current) && current == old(current) + increment && EndOk()
      ensures increment <= old(remaining) ==> Limit() == old(Limit())
      ensures Grown(old(table), table, old(Limit()), Limit(), old(nextFrame), nextFrame)
      ensures old(mem).Keys <= mem.Keys
      ensures forall a :: a in old(mem) && a < old(current) ==> mem[a] == old(mem)[a]
      ensures forall a :: a in mem && old(current) <= a < current ==> mem[a] == 0
    {
      hide Mapped, Paged, Extended, OnPage, OnWord, Cleared;
      base := current;
      NothingExtended(table, Limit(), nextFrame);
      if increment == 0 {
        return;
      }
      WordSum(current, increment);
      if increment <= remaining {
        remaining := remaining - increment;
        current := current + increment;
      } else {
        Grow(increment);
      }
      ghost var mem1 := mem;
      MappedAll(mem, HEAP_BOTTOM, Limit());
      Clear(base, increment);
      WordsCleared(mem1, mem, base, increment, HEAP_BOTTOM, Limit());
      MappedKeys(mem1, mem, HEAP_BOTTOM, Limit());
    }

    /** `malloc_assert` */
    method Check(block: nat)
      requires block in mem
      modifies this`panicked
      ensures panicked == (old(panicked) || mem[block] > MAX_BLOCK)
    {
      if mem[block] > MAX_BLOCK {
        panicked := true;
      }
    }

    /** The search of `malloc`: the first linked block that is free and large enough. */
    method Find(size: nat) returns (block: nat, last: nat, ghost k: nat)
      requires Valid() && !panicked && blocks != 0
      modifies this`panicked
      ensures !panicked && k <= |C|
      ensures FirstFit(mem, C, current, size, k, if k < |C| then block else current)
      ensures if k < |C| then block != 0 else block == 0 && C != [] && last == C[|C| - 1]
    {
      hide Tiles, Chain, Mapped, Paged, OnPage, OnWord, FirstFit;
      EmptyHeap(mem, blocks, T, C, current);
      LinkedHeader(mem, blocks, T, C, current, 0);
      block, last, k := blocks, blocks, 0;
      while block != 0 && !(mem[block + FREE] != 0 && mem[block] >= size)
        invariant !panicked && k <= |C| && C != []
        invariant if k == |C| then block == 0
                  else block == C[k] && block != 0 && HeaderOk(mem, block) && mem[block + NEXT] == NextIn(C, k)
        invariant k > 0 ==> last == C[k - 1]
        invariant NoneFits(mem, C, size, k)
        decreases |C| - k
      {
        NoneFitsMore(mem, C, size, k);
        Check(block);
        last := block;
        block := mem[block + NEXT];
        k := k + 1;
        if k < |C| {
          LinkedHeader(mem, blocks, T, C, current, k);
        }
        if block != 0 {
          Check(block);
        }
      }
      FirstFitting(mem, C, current, size, k);
    }

    lemma HeadersOfChain()
      requires Valid() && !panicked
      ensures forall l :: 0 <= l < |C| ==>
                && C[l] > 0 && C[l] in mem && C[l] + FREE in mem && C[l] + NEXT in mem
                && mem[C[l]] <= MAX_BLOCK && mem[C[l] + NEXT] == NextIn(C, l)
      ensures blocks == if C == [] then 0 else C[0]
    {
      hide Tiles, Chain, Mapped, Paged, OnPage, OnWord;
      EmptyHeap(mem, blocks, T, C, current);
      forall l | 0 <= l < |C|
        ensures && C[l] > 0 && C[l] in mem && C[l] + FREE in mem && C[l] + NEXT in mem
                && mem[C[l]] <= MAX_BLOCK && mem[C[l] + NEXT] == NextIn(C, l)
      {
        LinkedHeader(mem, blocks, T, C, current, l);
      }
    }

    /** `malloc_get`: a new block at the end of the heap, linked behind list member `k`. */
    method Get(last: nat, size: nat, ghost k: nat) returns (block: nat)
      requires Valid() && !panicked && OnWord(size) && current + size + HEADER <= HEAP_LIMIT
      requires if C == [] then last == 0 else k < |C| && last == C[k]
      modifies this`current, this`remaining, this`mem, this`table, this`nextFrame, this`T, this`C
      ensures Grown(old(table), table, old(Limit()), Limit(), old(nextFrame), nextFrame)
      ensures EndOk() && block == old(current) && current == block + size + HEADER
      ensures block in mem && mem[block] == size && block + FREE in mem && mem[block + FREE] == 0
      ensures forall t :: t in old(T) ==> Untouched(old(mem), mem, t)
      ensures T == old(T) + [block] && C == old(C[..if C == [] then 0 else k + 1]) + [block]
      ensures size <= MAX_BLOCK ==> Tiles(mem, T, current) && Chain(mem, if old(C) == [] then block else blocks, T, C)
    {
      hide Tiles, Chain, Untouched, HeaderWritten, Mapped, Paged, Grown, OnPage;
      LastLinked(last, k);
      ghost var mem0 := mem;
      block := Sbrk(size + HEADER);
      ghost var mem1 := mem;
      WordsMapped(mem, Limit(), block);
      WriteHeader(last, block, size);
      HeaderKeys(mem1, last, block, size);
      MappedKeys(mem1, mem, HEAP_BOTTOM, Limit());
      HeaderWords(mem1, last, block, size);
      GotBlock(mem0, mem1, blocks, T, C, block, k, last, size);
      T, C := T + [block], C[..if C == [] then 0 else k + 1] + [block];
    }

    lemma LastLinked(last: nat, k: nat)
      requires Valid() && !panicked && if C == [] then last == 0 else k < |C| && last == C[k]
      ensures last != 0 ==> last + NEXT in mem && last + HEADER <= current
    {
      hide Tiles, Chain, Mapped, Paged, OnPage, OnWord;
      if C != [] {
        LinkedHeader(mem, blocks, T, C, current, k);
      }
    }

    /** The header writes of `malloc_get`. */
    method WriteHeader(last: nat, block: nat, size: nat)
      modifies this`mem
      ensures mem == HeaderWritten(old(mem), last, block, size)
    {
      if last != 0 {
        mem := mem[last + NEXT := block];
      }
      mem := mem[block := size];
      mem := mem[block + NEXT := 0];
      mem := mem[block + FREE := 0];
    }

    /** `malloc` takes a free block, and splits it if the rest has room for a header. */
    method Take(block: nat, size: nat, ghost k: nat)
      requires Valid() && !panicked && OnWord(size) && k < |C| && block == C[k]
      modifies this`mem, this`T, this`C
      ensures Valid() && block in T && block in mem && block + FREE in mem && mem[block + FREE] == 0
      ensures block > 0 && block in old(mem) && old(mem)[block] <= MAX_BLOCK
      ensures mem[block] == if Splits(old(mem)[block], size) then size else old(mem)[block]
      ensures forall t :: t in old(T) && t != block ==> t in T && Untouched(old(mem), mem, t)
      ensures Lost() == old(Lost())
    {
      hide Tiles, Chain, Mapped, Paged, Backed, Untouched, SameLink, Taken, OnPage;
      ghost var i := ChainMember(mem, blocks, T, C, current, k);
      MappedBacked(mem, current, Limit());
      BlockWords(mem, T, current, i);
      TakenTouches(mem, T, current, i, size);
      TakenTiled(mem, T, current, i, size);
      TakenLinked(mem, blocks, T, C, current, i, k, size);
      TakenWords(mem, block, size);
      TilesDistinct(mem, T, current);
      MappedKeys(mem, Taken(mem, block, size), HEAP_BOTTOM, Limit());
      InsertKeeps(T, i + 1, block + HEADER + size);
      T, C := TakenTiles(mem, T, i, block, size), TakenTiles(mem, C, k, block, size);
      WriteTaken(block, size);
    }

    /** The writes of `malloc` to the free block it takes. */
    method WriteTaken(block: nat, size: nat)
      requires block in mem && block + NEXT in mem
      modifies this`mem
      ensures mem == Taken(old(mem), block, size)
    {
      mem := mem[block + FREE := 0];
      if mem[block] > size + HEADER {
        var split := block + HEADER + size;
        mem := mem[split + FREE := 1];
        mem := mem[split := mem[block] - size - HEADER];
        mem := mem[split + NEXT := mem[block + NEXT]];
        mem := mem[block := size];
        mem := mem[block + NEXT := split];
      }
    }

    /** The body of `malloc` for a request rounded up to `size`: the lowest linked free block that is
        large enough, or else a new one at the end.  `k` is the list position found. */
    method Serve(size: nat) returns (block: nat, ghost k: nat)
      requires Valid() && !panicked && OnWord(size) && current + size + HEADER <= HEAP_LIMIT
      modifies this
      ensures Grown(old(table), table, old(Limit()), Limit(), old(nextFrame), nextFrame)
      ensures EndOk() && !panicked && block > 0
      ensures size <= MAX_BLOCK || k < |old(C)| ==> Valid()
      ensures FirstFit(old(mem), old(C), old(current), size, k, block)
      ensures block in mem && block + FREE in mem && mem[block + FREE] == 0 && block in T
      ensures size <= mem[block] <= size + HEADER && (k < |old(C)| ==> mem[block] <= MAX_BLOCK) &&
              (k == |old(C)| ==> mem[block] == size)
      ensures if k == |old(C)| then current == block + size + HEADER
              else current == old(current) && Limit() == old(Limit())
      ensures Lost() == old(Lost())
      ensures k == |old(C)| ==> C == old(C) + [block]
      ensures forall t :: t in old(T) && t != block ==> t in T && Untouched(old(mem), mem, t)
    {
      hide Tiles, Chain, Mapped, Paged, Untouched, Grown, OnPage, OnWord;
      GrownNot(table, Limit(), nextFrame);
      EmptyHeap(mem, blocks, T, C, current);
      EndIsNew();
      k := 0;
      if blocks != 0 {
        var last;
        block, last, k := Find(size);
        if block != 0 {
          Take(block, size, k);
        } else {
          block := Get(last, size, |C| - 1);
          assert old(C)[..|old(C)|] == old(C);
        }
      } else {
        block := Get(0, size, 0);
        blocks := block;
      }
    }

    /** `malloc`.  Every block in use keeps its place and its contents. */
    method Malloc(size: nat) returns (p: nat, ghost k: nat)
      requires Valid() && !panicked && size < 0x1_0000_0000 && current + AlignUp(size) + HEADER <= HEAP_LIMIT
      modifies this
      ensures Grown(old(table), table, old(Limit()), Limit(), old(nextFrame), nextFrame)
      ensures Valid() && (panicked <==> MAX_BLOCK < size < 0x1_0000_0000 - 3)
      ensures size == 0 ==> p == 0 && mem == old(mem) && T == old(T) && C == old(C) && current == old(current)
      ensures size > 0 && !panicked ==>
              HEADER <= p &&
              Served(old(mem), old(T), old(C), old(current), AlignUp(size), k, p - HEADER)
      ensures size > 0 && !panicked && size + 3 < 0x1_0000_0000 ==> size <= mem[p - HEADER] < size + 4 + HEADER
      ensures size + 3 >= 0x1_0000_0000 ==> mem[p - HEADER] <= HEADER
      ensures size > 0 && !panicked && k < |old(C)| ==> Limit() == old(Limit())
      ensures size > 0 && !panicked && k == |old(C)| ==> C == old(C) + [p - HEADER]
      ensures !panicked ==> Lost() == old(Lost()) && old(Members()) <= Members()
      ensures AllKept(old(mem), old(T), mem, T)
    {
      hide Tiles, Chain, Mapped, Paged, AlignUp, OnPage, OnWord, AllKept, FirstFit, Live;
      p, k := 0, 0;
      if size == 0 {
        NothingTouched(mem, T, current);
      } else {
        Aligned(size);
        var block;
        block, k := ServeChecked(AlignUp(size));
        p := block + HEADER;
      }
    }

    method ServeChecked(size: nat) returns (block: nat, ghost k: nat)
      requires Valid() && !panicked && OnWord(size) && current + size + HEADER <= HEAP_LIMIT
      modifies this
      ensures Grown(old(table), table, old(Limit()), Limit(), old(nextFrame), nextFrame)
      ensures Valid() && (panicked <==> size > MAX_BLOCK)
      ensures !panicked ==> Served(old(mem), old(T), old(C), old(current), size, k, block)
      ensures !panicked && k < |old(C)| ==> Limit() == old(Limit())
      ensures !panicked && k == |old(C)| ==> C == old(C) + [block]
      ensures !panicked ==> Lost() == old(Lost()) && old(Members()) <= Members()
      ensures AllKept(old(mem), old(T), mem, T)
    {
      hide Tiles, Chain, Mapped, Paged, OnPage, OnWord, Untouched;
      EndIsNew();
      block, k := Serve(size);
      Check(block);
    }

    /** What `malloc` promises of the block it returns: in use now, not before; found first-fit or
        new at the end; at least as large as asked, and by less than a header and a word larger. */
    ghost predicate Served(mem0: Words, T0: seq<nat>, C0: seq<nat>, end: nat, size: nat, k: nat, block: nat)
      reads this
    {
      && FirstFit(mem0, C0, end, size, k, block)
      && Live(mem, T, block) && !Live(mem0, T0, block)
      && block in mem && size <= mem[block] <= size + HEADER
      && current == if k == |C0| then block + HEADER + size else end
    }

    /** The heap end is not a block yet. */
    lemma EndIsNew()
      requires Valid() && !panicked
      ensures current !in T && current > 0
    {
      if current in T {
        var i :| 0 <= i < |T| && T[i] == current;
        TileInHeap(mem, T, current, i);
      }
    }

    /** `free`: only the flag of the block changes. */
    method Free(p: nat)
      requires Valid() && !panicked && (p == 0 || (p >= HEADER && p - HEADER in T))
      modifies this`mem, this`panicked
      ensures Valid() && !panicked
      ensures p == 0 ==> mem == old(mem)
      ensures p != 0 ==> mem == old(mem)[p - HEADER + FREE := 1] && !Live(mem, T, p - HEADER)
      ensures forall t :: t in T && t != p - HEADER ==> Untouched(old(mem), mem, t)
    {
      hide Tiles, Chain, Mapped, Paged, OnPage, OnWord, Untouched;
      if p == 0 {
        UntouchedByNothing(mem, T, current);
        return;
      }
      FlagWritten(mem, blocks, T, C, current, p - HEADER);
      MappedKeys(mem, mem[p - HEADER + FREE := 1], HEAP_BOTTOM, Limit());
      Check(p - HEADER);
      mem := mem[p - HEADER + FREE := 1];
    }

    /** `calloc`: as `malloc`, and the payload is zero. */
    method Calloc(size: nat) returns (p: nat, ghost k: nat)
      requires Valid() && !panicked && size + 3 < 0x1_0000_0000 && current + AlignUp(size) + HEADER <= HEAP_LIMIT
      modifies this
      ensures Grown(old(table), table, old(Limit()), Limit(), old(nextFrame), nextFrame)
      ensures Valid() && (panicked <==> size > MAX_BLOCK)
      ensures size == 0 ==> p == 0 && mem == old(mem) && T == old(T) && C == old(C) && current == old(current)
      ensures size > 0 && !panicked ==>
              HEADER <= p &&
              Served(old(mem), old(T), old(C), old(current), AlignUp(size), k, p - HEADER)
      ensures size > 0 && !panicked && k < |old(C)| ==> Limit() == old(Limit())
      ensures size > 0 && !panicked && k == |old(C)| ==> C == old(C) + [p - HEADER]
      ensures size > 0 && !panicked ==> size <= mem[p - HEADER] < size + 4 + HEADER && Zeroed(mem, p, size)
      ensures !panicked ==> Lost() == old(Lost()) && old(Members()) <= Members()
      ensures AllKept(old(mem), old(T), mem, T)
    {
      hide Tiles, Chain, Mapped, Paged, OnPage, OnWord, Untouched, AlignUp, FirstFit, Zeroed, Cleared;
      p, k := Malloc(size);
      if p == 0 || panicked {
        return;
      }
      ghost var mem1 := mem;
      PayloadMapped(p - HEADER);
      Clear(p, size);
      ClearedPayload(mem1, mem, blocks, T, C, current, p - HEADER, size);
      MappedKeys(mem1, mem, HEAP_BOTTOM, Limit());
      KeptInTurn(old(mem), old(T), mem1, T, mem, p - HEADER);
    }

    lemma PayloadMapped(b: nat)
      requires Valid() && !panicked && b in T
      ensures b in mem && forall a :: b + HEADER <= a < EndOf(mem, b) && a % 4 == 0 ==> a in mem
    {
      var i :| 0 <= i < |T| && T[i] == b;
      MappedBacked(mem, current, Limit());
      BlockWords(mem, T, current, i);
    }

    /** What `malloc_align(PAGE)` does to the heap.  On an unaligned heap end it reads the link of the
        first block, and of NULL if that one has no successor; otherwise it hangs a new block behind
        the first one, so that its end leaves just a header to the next page boundary. */
    ghost predicate AlignedEnd(mem0: Words, T0: seq<nat>, C0: seq<nat>, end: nat, p: nat, faulted: bool)
      reads this
    {
      && (faulted <==> !OnPage(end) && |C0| < 2)
      && (p == 0 <==> OnPage(end) || faulted)
      && (p == 0 ==> mem == mem0 && T == T0 && C == C0 && current == end)
      && (p != 0 ==> p == end + HEADER && OnPage(current + HEADER) && end < current < end + 2 * PAGE
                     && T == T0 + [end] && C == [C0[0], end]
                     && end in mem && end < HEAP_LIMIT && mem[end] + 2 * HEADER == Padding(end))
    }

    /** `malloc_align(PAGE)`; `faulted` when it reads through a NULL pointer. */
    method Align() returns (p: nat, faulted: bool)
      requires Valid() && !panicked && (OnPage(current) || current + 2 * PAGE <= HEAP_LIMIT)
      modifies this`current, this`remaining, this`mem, this`table, this`nextFrame, this`T, this`C
      ensures Grown(old(table), table, old(Limit()), Limit(), old(nextFrame), nextFrame)
      ensures Valid() && AlignedEnd(old(mem), old(T), old(C), old(current), p, faulted)
      ensures p == 0 ==> Limit() == old(Limit()) && table == old(table)
      ensures if p == 0 then Lost() == old(Lost()) else Lost() == old(|T|) - 1 > 0
      ensures p != 0 ==> !Live(old(mem), old(T), p - HEADER) && p - HEADER in mem && mem[p - HEADER] < 2 * PAGE
      ensures p != 0 ==> Live(mem, T, p - HEADER)
      ensures forall t :: t in old(T) ==> t in T && Untouched(old(mem), mem, t)
    {
      hide Tiles, Chain, Mapped, Paged, Untouched, OnPage, OnWord, DivCeil, Grown;
      p, faulted := 0, false;
      GrownNot(table, Limit(), nextFrame);
      UntouchedByNothing(mem, T, current);
      if OnPage(current) {
        return;
      }
      HeadersOfChain();
      EndIsNew();
      PaddingToPage(current);
      var padding := DivCeil(current, PAGE) * PAGE - current;
      ghost var distance := padding;
      while padding <= HEAP_TOP
        invariant p == 0 && !faulted && unchanged(this) && Valid()
        invariant OnWord(padding) && OnPage(current + padding) && 0 < padding < 2 * PAGE && 0 < distance < PAGE
        invariant padding == distance || (padding == distance + PAGE && distance <= 2 * HEADER)
        decreases HEAP_TOP + PAGE - padding
      {
        if padding > 2 * HEADER {
          var last, found := SkipUnlinked();
          if !found {
            faulted := true;
            return;
          }
          p := GetPadding(last, padding);
          return;
        }
        OnePageMore(current, padding);
        padding := padding + PAGE;
      }
    }

    /** The growing branch of `malloc_align`. */
    method GetPadding(last: nat, padding: nat) returns (p: nat)
      requires Valid() && !panicked && |C| >= 2 && last == C[0]
      requires current < HEAP_LIMIT && padding == Padding(current) && !OnPage(current) && OnWord(padding) &&
               OnPage(current + padding) && 2 * HEADER < padding < 2 * PAGE && current + 2 * PAGE <= HEAP_LIMIT
      modifies this`current, this`remaining, this`mem, this`table, this`nextFrame, this`T, this`C
      ensures Grown(old(table), table, old(Limit()), Limit(), old(nextFrame), nextFrame)
      ensures Valid() && AlignedEnd(old(mem), old(T), old(C), old(current), p, false)
      ensures p != 0 && Lost() == old(|T|) - 1 > 0
      ensures Live(mem, T, p - HEADER) && !Live(old(mem), old(T), p - HEADER) && p - HEADER in mem &&
              mem[p - HEADER] < 2 * PAGE
      ensures forall t :: t in old(T) ==> t in T && Untouched(old(mem), mem, t)
    {
      hide Tiles, Chain, Mapped, Paged, Untouched, OnPage, OnWord, DivCeil, Grown;
      NoneLost();
      EndIsNew();
      PaddingFills(current, padding);
      var block := Get(last, padding - 2 * HEADER, 0);
      p := block + HEADER;
    }

    /** The inner loop of `malloc_align`, which follows links while there are none. */
    method SkipUnlinked() returns (last: nat, found: bool)
      requires Valid() && !panicked
      ensures found == (|C| >= 2) && (found ==> last == C[0])
    {
      hide Tiles, Chain, Mapped, Paged, OnPage, OnWord;
      HeadersOfChain();
      last := blocks;
      while last != 0 && mem[last + NEXT] == 0
        invariant last != 0 ==> C != [] && last == C[0]
        invariant last == 0 ==> |C| < 2
        decreases last
      {
        last := mem[last + NEXT];
      }
      found := last != 0;
    }

    /** The new directory starts on a page exactly if no free first block took it.  Then the heap end
        is on a page boundary too, with nothing mapped above. */
    ghost predicate DirPlaced(mem0: Words, C0: seq<nat>, dir: nat)
      requires C0 != []
      reads this
    {
      && (OnPage(dir) <==> !Fits(mem0, C0[0], PAGE))
      && (OnPage(dir) ==> dir + PAGE == current && OnPage(current) && remaining == 0 && Paged(table, current))
    }

    /** The linked blocks behind a directory that was placed on a page: the first one, the one for
        alignment, which is free, and the directory's. */
    ghost predicate DirBehind(C0: seq<nat>, end: nat, dir: nat)
      requires C0 != [] && end < HEAP_LIMIT && dir >= HEADER
      reads this
    {
      C == [C0[0], end, dir - HEADER] && end in mem && mem[end] + 2 * HEADER == Padding(end)
    }

    /** `virt_mm_addr_create` as far as the heap goes: a zeroed directory that no block in use
        overlaps. */
    method AddrCreate() returns (dir: nat, faulted: bool)
      requires Valid() && !panicked && current + 4 * PAGE <= HEAP_LIMIT
      modifies this
      ensures Grown(old(table), table, old(Limit()), Limit(), old(nextFrame), nextFrame)
      ensures Valid() && !panicked && (faulted <==> !OnPage(old(current)) && |old(C)| < 2)
      ensures !faulted ==> HEADER <= dir && Live(mem, T, dir - HEADER) && !Live(old(mem), old(T), dir - HEADER)
      ensures !faulted ==> Zeroed(mem, dir, PAGE) && dir - HEADER in mem && mem[dir - HEADER] >= PAGE
      ensures !faulted && !OnPage(old(current)) ==> DirPlaced(old(mem), old(C), dir)
      ensures !faulted && !OnPage(old(current)) && OnPage(dir) ==> DirBehind(old(C), old(current), dir)
      ensures !faulted && OnPage(old(current)) ==> (OnPage(dir) <==> PageFree(old(mem), old(C), old(current)))
      ensures !faulted && OnPage(old(current)) && OnPage(dir) ==> current == old(current)
      ensures !faulted ==> Lost() == if OnPage(old(current)) then old(Lost()) else old(|T|) - 1
      ensures faulted ==> Lost() == old(Lost())
      ensures old(Members()) <= Members() && old(current) <= current <= old(current) + 4 * PAGE
      ensures AllKept(old(mem), old(T), mem, T)
    {
      hide Tiles, Chain, Mapped, Paged, Untouched, OnPage, OnWord, Live, AllKept, Zeroed, Fits, FirstFit;
      dir := 0;
      FirstBlockPlace();
      PageOfWords();
      var align;
      align, faulted := Align();
      AllUntouched(old(mem), old(T), mem, T);
      if faulted {
        return;
      }
      if align == 0 {
        ghost var k;
        dir, k := Calloc(PAGE);
        DirInPlace(old(mem), old(C), old(current), k, dir - HEADER);
      } else {
        dir := CreateBehind(align, old(mem), old(T), old(C));
      }
    }

    /** The rest of `virt_mm_addr_create` once the end of the heap is aligned. */
    method CreateBehind(align: nat, ghost mem0: Words, ghost T0: seq<nat>, ghost C0: seq<nat>) returns (dir: nat)
      requires Valid() && !panicked && current + 2 * PAGE <= HEAP_LIMIT && OnPage(current + HEADER)
      requires HEADER <= align && Live(mem, T, align - HEADER) && !Live(mem0, T0, align - HEADER)
      requires C0 != [] && C0[0] + FREE in mem0 && C == [C0[0], align - HEADER] && Untouched(mem0, mem, C0[0])
      requires AllKept(mem0, T0, mem, T)
      modifies this
      ensures Grown(old(table), table, old(Limit()), Limit(), old(nextFrame), nextFrame)
      ensures Valid() && !panicked && HEADER <= dir && Live(mem, T, dir - HEADER) && !Live(mem0, T0, dir - HEADER)
      ensures Zeroed(mem, dir, PAGE) && dir - HEADER in mem && mem[dir - HEADER] >= PAGE
      ensures DirPlaced(mem0, C0, dir)
      ensures OnPage(dir) ==>
              C == old(C) + [dir - HEADER] && align - HEADER in old(mem) && align - HEADER in mem &&
              mem[align - HEADER] == old(mem)[align - HEADER]
      ensures AllKept(mem0, T0, mem, T) && Lost() == old(Lost()) && old(Members()) <= Members()
      ensures old(current) <= current <= old(current) + 2 * PAGE
    {
      hide Tiles, Chain, Mapped, Paged, Untouched, OnPage, OnWord, Live, AllKept, Zeroed, Fits, FirstFit;
      ghost var mem1, T1, end1 := mem, T, current;
      FirstBlockPlace();
      PageOfWords();
      ghost var k;
      dir, k := Calloc(PAGE);
      ghost var mem2 := mem;
      StillLive(mem1, T1, mem2, T, align - HEADER);
      Free(align);
      if Live(mem0, T0, dir - HEADER) {
        StillLive(mem0, T0, mem1, T1, dir - HEADER);
      }
      DirPlace(mem0, mem1, T1, C0[0], align - HEADER, end1, k, dir - HEADER);
      KeptTwice(mem0, T0, mem1, T1, mem2, T);
      FreedBetween(mem0, T0, mem2, T, mem, align - HEADER, dir - HEADER);
      ZeroedKept(mem2, mem, dir - HEADER, PAGE);
      if OnPage(dir) {
        PageAfter(dir);
        NothingLeft(current, remaining);
      }
    }

    /** The page in a block is filled with words. */
    method WritePage(p: nat, words: seq<nat>)
      requires Valid() && !panicked && HEADER <= p && OnWord(p) && p - HEADER in T && |words| == PAGE / 4
      requires p - HEADER in mem && mem[p - HEADER] >= PAGE
      modifies this`mem
      ensures Valid() && mem.Keys == old(mem).Keys
      ensures forall a :: a in mem && !(p <= a < p + PAGE) ==> mem[a] == old(mem)[a]
      ensures forall k :: 0 <= k < |words| ==> p + 4 * k in mem && mem[p + 4 * k] == words[k]
      ensures forall t :: t in T && t != p - HEADER ==> Untouched(old(mem), mem, t)
    {
      hide Tiles, Chain, Mapped, Paged, OnPage, Untouched;
      ghost var mem0 := mem;
      PayloadMapped(p - HEADER);
      mem := map a | a in mem :: if p <= a < p + PAGE then words[(a - p) / 4] else mem[a];
      WrittenInside(mem0, mem, blocks, T, C, current, p - HEADER);
      MappedKeys(mem0, mem, HEAP_BOTTOM, Limit());
      forall k | 0 <= k < |words|
        ensures p + 4 * k in mem && mem[p + 4 * k] == words[k]
      {
        assert (p + 4 * k) % 4 == 0;
      }
    }

    lemma FirstBlockPlace()
      requires Valid() && !panicked
      ensures C != [] ==> C[0] == HEAP_BOTTOM && C[0] in T && C[0] + FREE in mem
    {
    }
  }

  lemma SmallSizes()
    ensures AlignUp(4) == 4 && !OnPage(HEAP_BOTTOM + 40) && Padding(HEAP_BOTTOM + 40) == PAGE - 40
  {
  }

  /** The first block, in use, serves no further request. */
  lemma OneBlock(mem: Words, first: nat, T: seq<nat>, C: seq<nat>, end: nat)
    requires Tiles(mem, T, end) && Chain(mem, first, T, C) && end == HEAP_BOTTOM + 20 && Live(mem, T, HEAP_BOTTOM)
    ensures forall l :: 0 <= l < |C| ==> !Fits(mem, C[l], 4)
  {
    forall l | 0 <= l < |C|
      ensures C[l] == HEAP_BOTTOM
    {
      var i := ChainMember(mem, first, T, C, end, l);
      if C[l] != HEAP_BOTTOM {
        OwnWords(mem, T, end, C[l], HEAP_BOTTOM);
      }
    }
  }

  lemma TwoMembers(T: seq<nat>, a: nat, b: nat)
    requires a in T && b in T && a != b
    ensures |T| >= 2
  {
  }

  /** A small request. */
  method FirstSmall(dirt: nat -> nat) returns (heap: Heap)
    ensures fresh(heap) && heap.Valid() && !heap.panicked && heap.Lost() == 0
    ensures Live(heap.mem, heap.T, HEAP_BOTTOM) && heap.current == HEAP_BOTTOM + 20
  {
    hide Tiles, Chain, Mapped, Paged, AlignUp, OnPage, OnWord, Fits, Untouched, AllKept, Live;
    heap := new Heap(dirt, 0);
    SmallSizes();
    var p, k := heap.Malloc(4);
  }

  /** Two small requests. */
  method TwoSmall(dirt: nat -> nat) returns (heap: Heap)
    ensures fresh(heap) && heap.Valid() && !heap.panicked && heap.Lost() == 0 && |heap.T| >= 2 &&
            heap.current == HEAP_BOTTOM + 40
    ensures Live(heap.mem, heap.T, HEAP_BOTTOM)
  {
    hide Tiles, Chain, Mapped, Paged, AlignUp, OnPage, OnWord, Fits, Untouched, AllKept, Live;
    heap := FirstSmall(dirt);
    SmallSizes();
    ghost var mem1, T1 := heap.mem, heap.T;
    OneBlock(mem1, heap.blocks, T1, heap.C, heap.current);
    var p, k := heap.Malloc(4);
    StillLive(mem1, T1, heap.mem, heap.T, HEAP_BOTTOM);
    LiveMember(heap.mem, heap.T, p - HEADER);
    TwoMembers(heap.T, HEAP_BOTTOM, HEAP_BOTTOM + 20);
  }

  lemma LiveMember(mem: Words, T: seq<nat>, t: nat)
    requires Live(mem, T, t)
    ensures t in T
  {
  }

  /** Two small requests and one for alignment lose a block. */
  method AlignLosesBlock(dirt: nat -> nat) returns (heap: Heap)
    ensures heap.Valid() && !heap.panicked && heap.Lost() > 0 && heap.C != heap.T
  {
    hide Tiles, Chain, Mapped, Paged, OnPage, OnWord, Untouched;
    heap := TwoSmall(dirt);
    SmallSizes();
    var p, faulted := heap.Align();
    heap.NoneLost();
  }

  /** The directory created right behind one that is on a page is not on a page. */
  method AddrCreateTwice(dirt: nat -> nat) returns (heap: Heap, dir1: nat, dir2: nat)
    ensures heap.Valid() && OnPage(dir1) && !OnPage(dir2)
  {
    hide Tiles, Chain, Mapped, Paged, OnWord, Untouched, AllKept, Zeroed, OnPage, Live, Fits, DivCeil;
    heap := TwoSmall(dirt);
    SmallSizes();
    ghost var mem0, T0, C0, end := heap.mem, heap.T, heap.C, heap.current;
    heap.FirstBlockPlace();
    LiveFits(mem0, T0, HEAP_BOTTOM, PAGE);
    var faulted;
    dir1, faulted := heap.AddrCreate();
    StillLive(mem0, T0, heap.mem, heap.T, HEAP_BOTTOM);
    LiveFits(heap.mem, heap.T, HEAP_BOTTOM, PAGE);
    LiveFits(heap.mem, heap.T, dir1 - HEADER, PAGE);
    SmallFits(heap.mem, end, PAGE);
    NoneFree(heap.mem, heap.C, heap.current);
    dir2, faulted := heap.AddrCreate();
  }

  lemma LiveFits(mem: Words, T: seq<nat>, t: nat, size: nat)
    requires Live(mem, T, t)
    ensures !Fits(mem, t, size)
  {
  }

  lemma SmallFits(mem: Words, t: nat, size: nat)
    requires t in mem && mem[t] < size
    ensures !Fits(mem, t, size)
  {
  }

  lemma NoneFree(mem: Words, C: seq<nat>, end: nat)
    requires forall l :: 0 <= l < |C| ==> !Fits(mem, C[l], PAGE)
    ensures !PageFree(mem, C, end)
  {
  }
}
