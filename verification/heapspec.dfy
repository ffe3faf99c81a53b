/** Blocks in the kernel heap of `kernel/utils/stdlib.c`.  Memory is a map of the mapped words; the
    header of a block is stored in the words at its address. */
module HeapSpec {
  import opened DList

  const HEAP_BOTTOM: nat := 0xD000_0000
  const HEAP_TOP: nat := 0xF000_0000
  // where the recursive window of the page tables starts; `malloc` itself knows no limit
  const HEAP_LIMIT: nat := 0xFFC0_0000
  const PAGE: nat := 4096
  // struct malloc_block { uint32_t size; bool free; struct malloc_block *next, *prev; }
  const FREE: nat := 4
  const NEXT: nat := 8
  const HEADER: nat := 16
  const MAX_BLOCK: nat := 0x200_0000

  predicate OnPage(a: nat) { a % PAGE == 0 }
  predicate OnWord(a: nat) { a % 4 == 0 }

  type Words = map<nat, nat>

  /** Exactly the words from `lo` up to `hi` are mapped. */
  ghost predicate Mapped(mem: Words, lo: nat, hi: nat) {
    forall a :: a in mem <==> lo <= a < hi && a % 4 == 0
  }

  /** Exactly the pages from the bottom up to `hi` are in the page table. */
  ghost predicate Paged(table: map<nat, nat>, hi: nat) {
    forall v :: v in table <==> HEAP_BOTTOM <= v < hi && v % PAGE == 0
  }

  /** The pages from `lo` up to `hi` have frames in a row from `physical` on, and the others are as
      they were. */
  ghost predicate Extended(old_: map<nat, nat>, table: map<nat, nat>, lo: nat, hi: nat, physical: nat) {
    && (forall v :: v in old_ ==> v in table && table[v] == old_[v])
    && (forall v :: lo <= v < hi && v % PAGE == 0 ==> v in table && table[v] == physical + (v - lo))
  }

  lemma NothingExtended(table: map<nat, nat>, lo: nat, physical: nat)
    ensures Extended(table, table, lo, lo, physical)
  {
  }

  /** What the heap's growth from `lo` to `hi` leaves: fresh frames in a row, and `next` behind them. */
  ghost predicate Grown(old_: map<nat, nat>, table: map<nat, nat>, lo: nat, hi: nat, physical: nat, next: nat) {
    lo <= hi && Extended(old_, table, lo, hi, physical) && hi - lo == next - physical
  }

  lemma GrownNot(table: map<nat, nat>, lo: nat, physical: nat)
    ensures Grown(table, table, lo, lo, physical, physical)
  {
  }

  lemma GrownTwice(t0: map<nat, nat>, t1: map<nat, nat>, t2: map<nat, nat>, lo: nat, mid: nat, hi: nat, p0: nat,
                   p1: nat, p2: nat)
    requires Grown(t0, t1, lo, mid, p0, p1) && Grown(t1, t2, mid, hi, p1, p2)
    ensures Grown(t0, t2, lo, hi, p0, p2)
  {
  }

  lemma NotMappedYet(mem: Words, table: map<nat, nat>, lo: nat, hi: nat)
    requires Mapped(mem, lo, hi) && Paged(table, hi)
    ensures (forall a :: a in mem ==> a < hi) && forall v :: v in table ==> v < hi
  {
  }

  lemma MappedAll(mem: Words, lo: nat, hi: nat)
    requires Mapped(mem, lo, hi)
    ensures forall a :: lo <= a < hi && a % 4 == 0 ==> a in mem
  {
  }

  lemma OnePageMapped(mem: Words, mem': Words, lo: nat, v: nat)
    requires Mapped(mem, lo, v) && OnPage(v) && lo <= v
    requires forall a :: a in mem' <==> a in mem || (v <= a < v + PAGE && a % 4 == 0)
    ensures Mapped(mem', lo, v + PAGE) && OnPage(v + PAGE)
  {
  }

  lemma OnePagePaged(table: map<nat, nat>, v: nat, f: nat)
    requires Paged(table, v) && OnPage(v) && HEAP_BOTTOM <= v
    ensures Paged(table[v := f], v + PAGE)
  {
    PagesApart(v);
  }

  lemma OnePageExtended(old_: map<nat, nat>, table: map<nat, nat>, lo: nat, v: nat, physical: nat)
    requires Extended(old_, table, lo, v, physical) && OnPage(v) && lo <= v && v !in old_
    ensures Extended(old_, table[v := physical + (v - lo)], lo, v + PAGE, physical)
  {
    PagesApart(v);
  }

  /** There is no page boundary inside a page. */
  lemma PagesApart(v: nat)
    requires OnPage(v)
    ensures forall u: nat :: v < u < v + PAGE ==> u % PAGE != 0
  {
  }

  /** Every word of the heap below `hi` is mapped. */
  ghost predicate Backed(mem: Words, hi: nat) {
    forall a :: HEAP_BOTTOM <= a < hi && a % 4 == 0 ==> a in mem
  }

  function EndOf(mem: Words, t: nat): nat
    requires t in mem
  {
    t + HEADER + mem[t]
  }

  ghost predicate HeaderOk(mem: Words, t: nat) {
    && t % 4 == 0
    && t in mem && t + FREE in mem && t + NEXT in mem
    && mem[t] % 4 == 0 && mem[t] <= MAX_BLOCK
  }

  /** The blocks with headers at `T` tile the heap from its bottom to `end`. */
  ghost predicate Tiles(mem: Words, T: seq<nat>, end: nat) {
    && (forall i :: 0 <= i < |T| ==> HeaderOk(mem, T[i]))
    && (if T == [] then end == HEAP_BOTTOM else T[0] == HEAP_BOTTOM && EndOf(mem, T[|T| - 1]) == end)
    && (forall i :: 0 < i < |T| ==> T[i] == EndOf(mem, T[i - 1]))
  }

  /** A block in use. */
  ghost predicate Live(mem: Words, T: seq<nat>, t: nat) {
    t in T && t + FREE in mem && mem[t + FREE] == 0
  }

  ghost predicate Fits(mem: Words, t: nat, size: nat) {
    t in mem && t + FREE in mem && mem[t + FREE] != 0 && mem[t] >= size
  }

  /** Block `b` serves a request of `size`: it is list member `k`, the first that fits, or a new
      block at `end` if none does. */
  ghost predicate FirstFit(mem: Words, C: seq<nat>, end: nat, size: nat, k: nat, b: nat) {
    && k <= |C|
    && (forall l :: 0 <= l < k ==> !Fits(mem, C[l], size))
    && (if k < |C| then b == C[k] && Fits(mem, b, size) else b == end)
  }

  /** None of the first `k` members serves the request. */
  ghost predicate NoneFits(mem: Words, C: seq<nat>, size: nat, k: nat) {
    k <= |C| && forall l :: 0 <= l < k ==> !Fits(mem, C[l], size)
  }

  lemma NoneFitsMore(mem: Words, C: seq<nat>, size: nat, k: nat)
    requires NoneFits(mem, C, size, k) && k < |C| && !Fits(mem, C[k], size)
    ensures NoneFits(mem, C, size, k + 1)
  {
  }

  lemma FirstFitting(mem: Words, C: seq<nat>, end: nat, size: nat, k: nat)
    requires NoneFits(mem, C, size, k) && (k < |C| ==> Fits(mem, C[k], size))
    ensures FirstFit(mem, C, end, size, k, if k < |C| then C[k] else end)
  {
  }

  function NextIn(C: seq<nat>, k: nat): nat {
    if k + 1 < |C| then C[k + 1] else 0
  }

  ghost predicate Points(mem: Words, c: nat, next: nat) {
    c + NEXT in mem && mem[c + NEXT] == next
  }

  /** A write elsewhere keeps the link of `c`. */
  ghost predicate SameLink(mem: Words, mem': Words, c: nat) {
    c + NEXT in mem ==> Points(mem', c, mem[c + NEXT])
  }

  ghost predicate Increasing(C: seq<nat>) {
    forall k, l :: 0 <= k < l < |C| ==> C[k] < C[l]
  }

  ghost predicate Linked(mem: Words, C: seq<nat>) {
    forall k {:trigger NextIn(C, k)} :: 0 <= k < |C| ==> Points(mem, C[k], NextIn(C, k))
  }

  /** The blocks linked from `first` are `C`, some of the tiles in address order, from the first
      tile to the last. */
  ghost predicate Chain(mem: Words, first: nat, T: seq<nat>, C: seq<nat>) {
    && (forall k :: 0 <= k < |C| ==> C[k] in T)
    && Increasing(C)
    && (if T == [] then C == [] && first == 0 else C != [] && first == C[0] == T[0] && C[|C| - 1] == T[|T| - 1])
    && Linked(mem, C)
  }

  /** Blocks do not overlap. */
  lemma {:induction false} TilesApart(mem: Words, T: seq<nat>, end: nat, i: nat, j: nat)
    requires Tiles(mem, T, end) && i < j < |T|
    ensures EndOf(mem, T[i]) <= T[j] && EndOf(mem, T[j]) <= end
    decreases j - i, |T| - j
  {
    if i + 1 < j {
      TilesApart(mem, T, end, i, j - 1);
    }
    TileInHeap(mem, T, end, j);
  }

  lemma TileInHeap(mem: Words, T: seq<nat>, end: nat, i: nat)
    requires Tiles(mem, T, end) && i < |T|
    ensures HEAP_BOTTOM <= T[i] && EndOf(mem, T[i]) <= end
  {
    TileAbove(mem, T, end, i);
    TileBelow(mem, T, end, i);
  }

  lemma {:induction false} TileAbove(mem: Words, T: seq<nat>, end: nat, i: nat)
    requires Tiles(mem, T, end) && i < |T|
    ensures HEAP_BOTTOM <= T[i]
  {
    if i > 0 {
      TileAbove(mem, T, end, i - 1);
    }
  }

  lemma {:induction false} TileBelow(mem: Words, T: seq<nat>, end: nat, i: nat)
    requires Tiles(mem, T, end) && i < |T|
    ensures EndOf(mem, T[i]) <= end
    decreases |T| - i
  {
    if i + 1 < |T| {
      TileBelow(mem, T, end, i + 1);
    }
  }

  /** A block's words, header and payload, are all its own. */
  lemma OwnWords(mem: Words, T: seq<nat>, end: nat, s: nat, t: nat)
    requires Tiles(mem, T, end) && s in T && t in T && s != t
    ensures EndOf(mem, s) <= t || EndOf(mem, t) <= s
  {
    var i :| 0 <= i < |T| && T[i] == s;
    var j :| 0 <= j < |T| && T[j] == t;
    if i < j {
      TilesApart(mem, T, end, i, j);
    } else {
      TilesApart(mem, T, end, j, i);
    }
  }

  /** Writes that leave every size alone keep the tiling. */
  lemma TilesFrame(mem: Words, mem': Words, T: seq<nat>, end: nat)
    requires Tiles(mem, T, end) && mem.Keys <= mem'.Keys
    requires forall t :: t in T ==> mem'[t] == mem[t]
    ensures Tiles(mem', T, end)
  {
  }

  /** Splitting tile `i` puts a new tile behind it. */
  lemma TilesSplit(mem: Words, mem': Words, T: seq<nat>, end: nat, i: nat, size: nat)
    requires Tiles(mem, T, end) && i < |T| && mem.Keys <= mem'.Keys
    requires size % 4 == 0 && mem[T[i]] > size + HEADER
    requires var s := T[i] + HEADER + size;
             && s in mem' && s + FREE in mem' && s + NEXT in mem'
             && mem'[T[i]] == size && mem'[s] == mem[T[i]] - size - HEADER
    requires forall t :: t in T && t != T[i] ==> mem'[t] == mem[t]
    ensures Tiles(mem', InsertAt(T, i + 1, T[i] + HEADER + size), end)
  {
    hide InsertAt;
    var s := T[i] + HEADER + size;
    var T' := InsertAt(T, i + 1, s);
    WordSums(T[i], size, mem[T[i]]);
    forall j | 0 <= j < |T|
      ensures j != i ==> T[j] != T[i] && mem'[T[j]] == mem[T[j]]
    {
      if j < i {
        TilesApart(mem, T, end, j, i);
      } else if i < j {
        TilesApart(mem, T, end, i, j);
      }
    }
    forall j | 0 <= j < |T'|
      ensures HeaderOk(mem', T'[j]) && (j > 0 ==> T'[j] == EndOf(mem', T'[j - 1]))
    {
      if j != i + 1 {
        assert T'[j] == T[if j <= i then j else j - 1];
      }
      if 0 < j && j != i + 2 {
        assert T'[j - 1] == T[if j <= i + 1 then j - 1 else j - 2];
      }
    }
  }

  lemma WordSums(t: nat, size: nat, have: nat)
    requires t % 4 == 0 && size % 4 == 0 && have % 4 == 0 && have > size + HEADER
    ensures (t + HEADER + size) % 4 == 0 && (have - size - HEADER) % 4 == 0
  {
    var a, b, c := t / 4, size / 4, have / 4;
    assert t + HEADER + size == 4 * (a + 4 + b) && have - size - HEADER == 4 * (c - b - 4);
  }

  lemma TilesAppend(mem: Words, mem': Words, T: seq<nat>, end: nat, size: nat)
    requires Tiles(mem, T, end) && mem.Keys <= mem'.Keys
    requires forall t :: t in T ==> mem'[t] == mem[t]
    requires end in mem' && end + FREE in mem' && end + NEXT in mem' && end % 4 == 0
    requires mem'[end] == size && size % 4 == 0 && size <= MAX_BLOCK
    ensures Tiles(mem', T + [end], end + HEADER + size)
  {
    var T' := T + [end];
    forall j | 0 <= j < |T'|
      ensures HeaderOk(mem', T'[j]) && (j > 0 ==> T'[j] == EndOf(mem', T'[j - 1]))
    {
    }
  }

  lemma TilesDistinct(mem: Words, T: seq<nat>, end: nat)
    requires Tiles(mem, T, end)
    ensures forall i, j :: 0 <= i < j < |T| ==> T[i] < T[j]
  {
    forall i, j | 0 <= i < j < |T|
      ensures T[i] < T[j]
    {
      TilesApart(mem, T, end, i, j);
    }
  }

  /** The list only depends on the link words of its members. */
  lemma ChainFrame(mem: Words, mem': Words, first: nat, T: seq<nat>, C: seq<nat>)
    requires Chain(mem, first, T, C)
    requires forall c :: c in C ==> SameLink(mem, mem', c)
    ensures Chain(mem', first, T, C)
  {
    forall k | 0 <= k < |C|
      ensures Points(mem', C[k], NextIn(C, k))
    {
      assert Points(mem, C[k], NextIn(C, k)) && SameLink(mem, mem', C[k]);
    }
  }

  lemma ChainMember(mem: Words, first: nat, T: seq<nat>, C: seq<nat>, end: nat, k: nat) returns (i: nat)
    requires Tiles(mem, T, end) && Chain(mem, first, T, C) && k < |C|
    ensures i < |T| && T[i] == C[k] && C[k] in mem && HEAP_BOTTOM <= C[k] < EndOf(mem, C[k]) <= end
    ensures forall l :: k < l < |C| ==> EndOf(mem, C[k]) <= C[l]
    ensures k + 1 == |C| ==> i + 1 == |T|
  {
    i :| 0 <= i < |T| && T[i] == C[k];
    TileInHeap(mem, T, end, i);
    forall l | k < l < |C|
      ensures EndOf(mem, C[k]) <= C[l]
    {
      assert C[k] < C[l];
      OwnWords(mem, T, end, C[k], C[l]);
    }
    if k + 1 == |C| && i + 1 < |T| {
      TilesApart(mem, T, end, i, |T| - 1);
    }
  }

  /** The header of a list member. */
  lemma LinkedHeader(mem: Words, first: nat, T: seq<nat>, C: seq<nat>, end: nat, k: nat)
    requires Tiles(mem, T, end) && Chain(mem, first, T, C) && k < |C|
    ensures C[k] > 0 && HeaderOk(mem, C[k]) && C[k] + HEADER <= end
    ensures mem[C[k] + NEXT] == NextIn(C, k)
  {
    hide Tiles, Linked;
    var i := ChainMember(mem, first, T, C, end, k);
    HeaderAt(mem, T, end, i);
    LinkAt(mem, C, k);
  }

  lemma HeaderAt(mem: Words, T: seq<nat>, end: nat, i: nat)
    requires Tiles(mem, T, end) && i < |T|
    ensures HeaderOk(mem, T[i])
  {
  }

  lemma LinkAt(mem: Words, C: seq<nat>, k: nat)
    requires Linked(mem, C) && k < |C|
    ensures Points(mem, C[k], NextIn(C, k))
  {
  }

  lemma InsertKeeps(T: seq<nat>, i: nat, s: nat)
    requires i <= |T|
    ensures forall t :: t in InsertAt(T, i, s) <==> t in T || t == s
  {
    assert T == T[..i] + T[i..];
  }

  lemma IncreasingInsert(C: seq<nat>, k: nat, s: nat)
    requires Increasing(C) && k < |C| && C[k] < s && (k + 1 < |C| ==> s < C[k + 1])
    ensures Increasing(InsertAt(C, k + 1, s))
  {
    var C' := InsertAt(C, k + 1, s);
    forall l, n | 0 <= l < n < |C'|
      ensures C'[l] < C'[n]
    {
      if l != k + 1 && n != k + 1 {
        assert C[if l <= k then l else l - 1] < C[if n <= k then n else n - 1];
      }
    }
  }

  lemma LinkedInsert(mem: Words, mem': Words, C: seq<nat>, k: nat, s: nat)
    requires Linked(mem, C) && k < |C| && Points(mem', C[k], s) && Points(mem', s, NextIn(C, k))
    requires forall l :: 0 <= l < |C| && l != k ==> SameLink(mem, mem', C[l])
    ensures Linked(mem', InsertAt(C, k + 1, s))
  {
    var C' := InsertAt(C, k + 1, s);
    forall l | 0 <= l < |C'|
      ensures Points(mem', C'[l], NextIn(C', l))
    {
      if l < k {
        assert Points(mem, C[l], NextIn(C, l)) && SameLink(mem, mem', C[l]);
      } else if l > k + 1 {
        assert Points(mem, C[l - 1], NextIn(C, l - 1)) && SameLink(mem, mem', C[l - 1]);
      }
    }
  }

  lemma ChainNeighbours(mem: Words, first: nat, T: seq<nat>, C: seq<nat>, end: nat, i: nat, k: nat)
    requires Tiles(mem, T, end) && Chain(mem, first, T, C) && i < |T| && k < |C| && C[k] == T[i]
    ensures k + 1 < |C| ==> EndOf(mem, C[k]) <= C[k + 1]
    ensures k + 1 == |C| <==> i + 1 == |T|
  {
    hide Linked;
    var i' := ChainMember(mem, first, T, C, end, k);
    TilesDistinct(mem, T, end);
    if k + 1 < |C| {
      var j := ChainMember(mem, first, T, C, end, k + 1);
    }
  }

  lemma InsertedAmong(T: seq<nat>, C: seq<nat>, i: nat, k: nat, s: nat)
    requires (forall l :: 0 <= l < |C| ==> C[l] in T) && i < |T| && k < |C|
    ensures var C' := InsertAt(C, k + 1, s); forall l :: 0 <= l < |C'| ==> C'[l] in InsertAt(T, i + 1, s)
  {
    InsertKeeps(T, i + 1, s);
    var C' := InsertAt(C, k + 1, s);
    forall l | 0 <= l < |C'|
      ensures C'[l] in InsertAt(T, i + 1, s)
    {
      assert l != k + 1 ==> C'[l] == C[if l <= k then l else l - 1];
    }
  }

  lemma ChainSplitPlace(mem: Words, first: nat, T: seq<nat>, C: seq<nat>, end: nat, i: nat, k: nat, s: nat)
    requires Tiles(mem, T, end) && Chain(mem, first, T, C) && i < |T| && k < |C| && C[k] == T[i]
    requires T[i] < s < EndOf(mem, T[i])
    ensures var T', C' := InsertAt(T, i + 1, s), InsertAt(C, k + 1, s);
            && (forall l :: 0 <= l < |C'| ==> C'[l] in T')
            && C'[0] == C[0] && T'[0] == T[0] && C'[|C'| - 1] == T'[|T'| - 1]
            && Increasing(C')
  {
    hide Tiles, Linked, InsertAt;
    ChainNeighbours(mem, first, T, C, end, i, k);
    InsertedAmong(T, C, i, k, s);
    IncreasingInsert(C, k, s);
  }

  /** The second half of a split block follows the first in the list too. */
  lemma ChainSplit(mem: Words, mem': Words, first: nat, T: seq<nat>, C: seq<nat>, end: nat, i: nat, k: nat, s: nat)
    requires Tiles(mem, T, end) && Chain(mem, first, T, C) && i < |T| && k < |C| && C[k] == T[i]
    requires T[i] < s < EndOf(mem, T[i])
    requires Points(mem', T[i], s) && Points(mem', s, mem[T[i] + NEXT])
    requires forall c :: c in C && c != T[i] ==> SameLink(mem, mem', c)
    ensures Chain(mem', first, InsertAt(T, i + 1, s), InsertAt(C, k + 1, s))
  {
    hide Tiles, Increasing, InsertAt;
    ChainSplitPlace(mem, first, T, C, end, i, k, s);
    assert Points(mem, C[k], NextIn(C, k));
    IncreasingOnce(C, k);
    LinkedInsert(mem, mem', C, k, s);
  }

  lemma IncreasingOnce(C: seq<nat>, k: nat)
    requires Increasing(C) && k < |C|
    ensures forall l :: 0 <= l < |C| && l != k ==> C[l] != C[k]
  {
    assert forall l :: 0 <= l < k ==> C[l] < C[k];
    assert forall l :: k < l < |C| ==> C[k] < C[l];
  }

  lemma LinkedCut(mem: Words, mem': Words, C: seq<nat>, k: nat, s: nat)
    requires Linked(mem, C) && k < |C| && Points(mem', C[k], s) && Points(mem', s, 0)
    requires forall l :: 0 <= l < k ==> SameLink(mem, mem', C[l])
    ensures Linked(mem', C[..k + 1] + [s])
  {
    var C' := C[..k + 1] + [s];
    forall l | 0 <= l < |C'|
      ensures Points(mem', C'[l], NextIn(C', l))
    {
      if l < k {
        assert Points(mem, C[l], NextIn(C, l)) && SameLink(mem, mem', C[l]);
      }
    }
  }

  /** A new block at the end of the heap, linked behind the list member `k`, cuts off every member
      after `k`. */
  lemma ChainLink(mem: Words, mem': Words, first: nat, T: seq<nat>, C: seq<nat>, end: nat, k: nat)
    requires Tiles(mem, T, end) && Chain(mem, first, T, C) && k < |C|
    requires Points(mem', end, 0) && Points(mem', C[k], end)
    requires forall c :: c in C && c != C[k] ==> SameLink(mem, mem', c)
    ensures Chain(mem', first, T + [end], C[..k + 1] + [end])
  {
    hide Tiles, Linked, Points;
    var j := ChainMember(mem, first, T, C, end, k);
    IncreasingOnce(C, k);
    LinkedCut(mem, mem', C, k, end);
    assert forall l :: 0 <= l <= k ==> C[l] in T && C[l] <= C[k] < end;
  }

  /** The block at `t` keeps its size, its flag and every word of its payload. */
  ghost predicate Untouched(mem: Words, mem': Words, t: nat) {
    && t in mem && t in mem' && mem'[t] == mem[t]
    && (t + FREE in mem ==> t + FREE in mem' && mem'[t + FREE] == mem[t + FREE])
    && (forall a :: t + HEADER <= a < EndOf(mem, t) && a in mem ==> a in mem' && mem'[a] == mem[a])
  }

  /** Writes inside the block at `b` touch no other block. */
  lemma WritesInside(mem: Words, mem': Words, T: seq<nat>, end: nat, b: nat)
    requires Tiles(mem, T, end) && b in T
    requires forall a :: a in mem && (a < b || EndOf(mem, b) <= a) ==> a in mem' && mem'[a] == mem[a]
    ensures forall t :: t in T && t != b ==> Untouched(mem, mem', t) && SameLink(mem, mem', t)
  {
    forall t | t in T && t != b
      ensures Untouched(mem, mem', t) && SameLink(mem, mem', t)
    {
      OwnWords(mem, T, end, b, t);
    }
  }

  /** Size and header of every block together make up the heap. */
  function Extent(mem: Words, T: seq<nat>): nat {
    if T == [] then 0
    else Extent(mem, T[..|T| - 1]) + HEADER + if T[|T| - 1] in mem then mem[T[|T| - 1]] else 0
  }

  lemma {:induction false} ExtentIsHeap(mem: Words, T: seq<nat>, end: nat)
    requires Tiles(mem, T, end)
    ensures HEAP_BOTTOM + Extent(mem, T) == end
    decreases |T|
  {
    if T != [] {
      var last := T[|T| - 1];
      assert forall i :: 0 <= i < |T| - 1 ==> T[..|T| - 1][i] == T[i];
      ExtentIsHeap(mem, T[..|T| - 1], last);
    }
  }

  /** Linking a new block behind list member `k` touches no block there was. */
  lemma LinkTouchesNone(mem: Words, mem': Words, T: seq<nat>, end: nat, c: nat)
    requires Tiles(mem, T, end) && c in T
    requires forall a :: a in mem && a < end && a != c + NEXT ==> a in mem' && mem'[a] == mem[a]
    ensures forall t :: t in T ==> Untouched(mem, mem', t) && (t != c ==> SameLink(mem, mem', t))
  {
    forall t | t in T
      ensures Untouched(mem, mem', t) && (t != c ==> SameLink(mem, mem', t))
    {
      var i :| 0 <= i < |T| && T[i] == t;
      TileInHeap(mem, T, end, i);
      if t != c {
        OwnWords(mem, T, end, c, t);
      }
    }
  }

  lemma NewBlock(mem: Words, mem': Words, first: nat, T: seq<nat>, C: seq<nat>, end: nat, k: nat, size: nat)
    requires Tiles(mem, T, end) && Chain(mem, first, T, C) && k < |C| && mem.Keys <= mem'.Keys
    requires forall a :: a in mem && a < end && a != C[k] + NEXT ==> mem'[a] == mem[a]
    requires end % 4 == 0 && end in mem' && end + FREE in mem' && mem'[end] == size && size % 4 == 0
    requires end + NEXT in mem' && mem'[end + NEXT] == 0 && C[k] + NEXT in mem' && mem'[C[k] + NEXT] == end
    ensures forall t :: t in T ==> Untouched(mem, mem', t)
    ensures size <= MAX_BLOCK ==>
            Tiles(mem', T + [end], end + HEADER + size) &&
            Chain(mem', first, T + [end], C[..k + 1] + [end])
  {
    assert Points(mem', end, 0) && Points(mem', C[k], end);
    hide Tiles, Chain, Untouched, SameLink, Points;
    var i := ChainMember(mem, first, T, C, end, k);
    LinkTouchesNone(mem, mem', T, end, C[k]);
    SizesKept(mem, mem', T, end);
    if size <= MAX_BLOCK {
      TilesAppend(mem, mem', T, end, size);
    }
    MembersTiles(mem, first, T, C);
    ChainLink(mem, mem', first, T, C, end, k);
  }

  lemma SizesKept(mem: Words, mem': Words, T: seq<nat>, end: nat)
    requires Tiles(mem, T, end) && forall t :: t in T ==> Untouched(mem, mem', t)
    ensures forall t :: t in T ==> t in mem && t in mem' && mem'[t] == mem[t]
  {
  }

  lemma MembersTiles(mem: Words, first: nat, T: seq<nat>, C: seq<nat>)
    requires Chain(mem, first, T, C)
    ensures forall c :: c in C ==> c in T
  {
  }

  /** The writes of `malloc_get`. */
  function HeaderWritten(mem: Words, last: nat, block: nat, size: nat): Words {
    (if last != 0 then mem[last + NEXT := block] else mem)[block := size][block + NEXT := 0][block + FREE := 0]
  }

  lemma HeaderWords(mem: Words, last: nat, block: nat, size: nat)
    requires last == 0 || last + HEADER <= block
    ensures var m := HeaderWritten(mem, last, block, size);
            && block in m && m[block] == size && block + FREE in m && m[block + FREE] == 0
            && block + NEXT in m && m[block + NEXT] == 0
            && (last != 0 ==> last + NEXT in m && m[last + NEXT] == block)
            && mem.Keys <= m.Keys
            && (forall a :: a in mem && a < block && (last != 0 ==> a != last + NEXT) ==> m[a] == mem[a])
  {
  }

  lemma HeaderKeys(mem: Words, last: nat, block: nat, size: nat)
    requires block in mem && block + NEXT in mem && block + FREE in mem && (last != 0 ==> last + NEXT in mem)
    ensures HeaderWritten(mem, last, block, size).Keys == mem.Keys
  {
  }

  /** The first block of the heap. */
  lemma FirstBlock(mem: Words, size: nat)
    requires HEAP_BOTTOM in mem && HEAP_BOTTOM + FREE in mem && HEAP_BOTTOM + NEXT in mem
    requires mem[HEAP_BOTTOM] == size && mem[HEAP_BOTTOM + NEXT] == 0 && size % 4 == 0 && size <= MAX_BLOCK
    ensures Tiles(mem, [HEAP_BOTTOM], HEAP_BOTTOM + HEADER + size)
    ensures Chain(mem, HEAP_BOTTOM, [HEAP_BOTTOM], [HEAP_BOTTOM])
  {
    assert Points(mem, HEAP_BOTTOM, 0);
  }

  lemma WordsMapped(mem: Words, hi: nat, a: nat)
    requires Mapped(mem, HEAP_BOTTOM, hi) && HEAP_BOTTOM <= a && a + HEADER <= hi && a % 4 == 0
    ensures a in mem && a + FREE in mem && a + NEXT in mem
  {
  }

  /** All of `malloc_get`, from the grown memory to the linked block. */
  lemma GotBlock(mem: Words, mem1: Words, first: nat, T: seq<nat>, C: seq<nat>, end: nat, k: nat, last: nat, size: nat)
    requires Tiles(mem, T, end) && Chain(mem, first, T, C) && (if C == [] then last == 0 else k < |C| && last == C[k])
    requires mem.Keys <= mem1.Keys && forall a :: a in mem && a < end ==> mem1[a] == mem[a]
    requires end % 4 == 0 && size % 4 == 0
    ensures var m, T', C' := HeaderWritten(mem1, last, end, size), T + [end], C[..if C == [] then 0 else k + 1] + [end];
            && (forall t :: t in T ==> Untouched(mem, m, t))
            && (size <= MAX_BLOCK ==>
                Tiles(m, T', end + HEADER + size) &&
                Chain(m, if C == [] then end else first, T', C'))
  {
    hide Tiles, Chain, Untouched, HeaderWritten;
    if C == [] {
      EmptyHeap(mem, first, T, C, end);
      HeaderWords(mem1, 0, end, size);
      assert T + [end] == [end] && C[..0] + [end] == [end];
      if size <= MAX_BLOCK {
        FirstBlock(HeaderWritten(mem1, 0, end, size), size);
      }
    } else {
      var i := ChainMember(mem, first, T, C, end, k);
      HeaderWords(mem1, last, end, size);
      NewBlock(mem, HeaderWritten(mem1, last, end, size), first, T, C, end, k, size);
    }
  }

  lemma EmptyHeap(mem: Words, first: nat, T: seq<nat>, C: seq<nat>, end: nat)
    requires Tiles(mem, T, end) && Chain(mem, first, T, C)
    ensures C == [] <==> T == []
    ensures if C == [] then first == 0 else first == C[0] > 0
    ensures C == [] ==> end == HEAP_BOTTOM
  {
    if T != [] {
      TileInHeap(mem, T, end, 0);
    }
  }

  lemma MappedKeys(mem: Words, mem': Words, lo: nat, hi: nat)
    requires Mapped(mem, lo, hi) && mem'.Keys == mem.Keys
    ensures Mapped(mem', lo, hi)
  {
    forall a
      ensures a in mem' <==> lo <= a < hi && a % 4 == 0
    {
      assert a in mem' <==> a in mem;
    }
  }

  /** Whether `malloc` splits a block of size `have` to serve `size`. */
  predicate Splits(have: nat, size: nat) {
    have > size + HEADER
  }

  /** The writes of `malloc` to the free block it takes. */
  function Taken(mem: Words, b: nat, size: nat): Words
    requires b in mem && b + NEXT in mem
  {
    var m := mem[b + FREE := 0];
    if Splits(mem[b], size) then
      var s := b + HEADER + size;
      m[s + FREE := 1][s := mem[b] - size - HEADER][s + NEXT := mem[b + NEXT]][b := size][b + NEXT := s]
    else m
  }

  function TakenTiles(mem: Words, X: seq<nat>, x: nat, b: nat, size: nat): seq<nat>
    requires b in mem && x < |X|
  {
    if Splits(mem[b], size) then InsertAt(X, x + 1, b + HEADER + size) else X
  }

  lemma TakenWords(mem: Words, b: nat, size: nat)
    requires b % 4 == 0 && size % 4 == 0 && b in mem && b + FREE in mem && b + NEXT in mem && mem[b] % 4 == 0
    requires forall a :: b <= a < EndOf(mem, b) && a % 4 == 0 ==> a in mem
    ensures var m, s := Taken(mem, b, size), b + HEADER + size;
            && m.Keys == mem.Keys && m[b + FREE] == 0
            && (forall a :: a in mem && (a < b || EndOf(mem, b) <= a) ==> m[a] == mem[a])
            && if Splits(mem[b], size) then
                 && s in mem && s + FREE in mem && s + NEXT in mem
                 && m[b] == size && m[s] == mem[b] - size - HEADER && m[s + FREE] == 1
                 && m[b + NEXT] == s && m[s + NEXT] == mem[b + NEXT] && s < EndOf(mem, b)
               else m[b] == mem[b] && m[b + NEXT] == mem[b + NEXT]
  {
    if Splits(mem[b], size) {
      SplitMapped(mem, b, size);
      SplitWords(mem, b, size, mem[b], mem[b + NEXT]);
    }
  }

  lemma SplitMapped(mem: Words, b: nat, size: nat)
    requires b % 4 == 0 && size % 4 == 0 && b in mem && mem[b] % 4 == 0 && Splits(mem[b], size)
    requires forall a :: b <= a < EndOf(mem, b) && a % 4 == 0 ==> a in mem
    ensures var s := b + HEADER + size; s in mem && s + FREE in mem && s + NEXT in mem && s < EndOf(mem, b)
  {
    var s := b + HEADER + size;
    assert s % 4 == 0 && (s + FREE) % 4 == 0 && (s + NEXT) % 4 == 0;
  }

  lemma SplitWords(mem: Words, b: nat, size: nat, have: nat, next: nat)
    requires b in mem && b + FREE in mem && b + NEXT in mem && have > size + HEADER
    requires var s := b + HEADER + size; s in mem && s + FREE in mem && s + NEXT in mem
    ensures var s := b + HEADER + size;
            var m := mem[b + FREE := 0][s + FREE := 1][s := have - size - HEADER][s + NEXT := next][b := size]
                        [b + NEXT := s];
            && m.Keys == mem.Keys && m[b + FREE] == 0
            && (forall a :: a in mem && (a < b || b + HEADER + have <= a) ==> m[a] == mem[a])
            && m[b] == size && m[s] == have - size - HEADER && m[s + FREE] == 1
            && m[b + NEXT] == s && m[s + NEXT] == next && s < b + HEADER + have
  {
  }

  lemma BlockWords(mem: Words, T: seq<nat>, end: nat, i: nat)
    requires Tiles(mem, T, end) && i < |T| && Backed(mem, end)
    ensures HeaderOk(mem, T[i]) && T[i] in T
    ensures forall a :: T[i] <= a < EndOf(mem, T[i]) && a % 4 == 0 ==> a in mem
  {
    TileInHeap(mem, T, end, i);
  }

  lemma TakenTouches(mem: Words, T: seq<nat>, end: nat, i: nat, size: nat)
    requires Tiles(mem, T, end) && i < |T| && size % 4 == 0 && Backed(mem, end)
    ensures T[i] in mem && T[i] + NEXT in mem
    ensures forall t :: t in T && t != T[i] ==>
              Untouched(mem, Taken(mem, T[i], size), t) && SameLink(mem, Taken(mem, T[i], size), t)
  {
    hide Tiles, Backed, Taken, Untouched, SameLink;
    BlockWords(mem, T, end, i);
    TakenWords(mem, T[i], size);
    WritesInside(mem, Taken(mem, T[i], size), T, end, T[i]);
    TilesMapped(mem, T, end);
  }

  lemma TilesMapped(mem: Words, T: seq<nat>, end: nat)
    requires Tiles(mem, T, end)
    ensures forall t :: t in T ==> t in mem && t + FREE in mem && t + NEXT in mem
  {
  }

  lemma TakenTiled(mem: Words, T: seq<nat>, end: nat, i: nat, size: nat)
    requires Tiles(mem, T, end) && i < |T| && size % 4 == 0 && Backed(mem, end)
    requires T[i] in mem && T[i] + NEXT in mem
    ensures Tiles(Taken(mem, T[i], size), TakenTiles(mem, T, i, T[i], size), end)
  {
    hide Tiles, Backed, Taken, SameLink;
    BlockWords(mem, T, end, i);
    TakenWords(mem, T[i], size);
    TakenTouches(mem, T, end, i, size);
    var m := Taken(mem, T[i], size);
    if Splits(mem[T[i]], size) {
      TilesSplit(mem, m, T, end, i, size);
    } else {
      TilesFrame(mem, m, T, end);
    }
  }

  lemma TakenLinked(mem: Words, first: nat, T: seq<nat>, C: seq<nat>, end: nat, i: nat, k: nat, size: nat)
    requires Tiles(mem, T, end) && Chain(mem, first, T, C) && i < |T| && k < |C| && C[k] == T[i]
    requires size % 4 == 0 && Backed(mem, end)
    requires T[i] in mem && T[i] + NEXT in mem
    ensures Chain(Taken(mem, T[i], size), first, TakenTiles(mem, T, i, T[i], size), TakenTiles(mem, C, k, T[i], size))
  {
    hide Tiles, Chain, Backed, Taken, Untouched;
    BlockWords(mem, T, end, i);
    TakenWords(mem, T[i], size);
    TakenTouches(mem, T, end, i, size);
    MembersTiles(mem, first, T, C);
    var m := Taken(mem, T[i], size);
    if Splits(mem[T[i]], size) {
      assert Points(m, T[i], T[i] + HEADER + size) && Points(m, T[i] + HEADER + size, mem[T[i] + NEXT]);
      ChainSplit(mem, m, first, T, C, end, i, k, T[i] + HEADER + size);
    } else {
      assert SameLink(mem, m, T[i]);
      ChainFrame(mem, m, first, T, C);
    }
  }

  lemma MappedBacked(mem: Words, hi: nat, limit: nat)
    requires Mapped(mem, HEAP_BOTTOM, limit) && hi <= limit
    ensures Backed(mem, hi)
  {
  }

  /** Every block in use is still there, with its size and contents. */
  ghost predicate AllKept(mem: Words, T: seq<nat>, mem': Words, T': seq<nat>) {
    forall t :: Live(mem, T, t) ==> t in T' && Untouched(mem, mem', t)
  }

  lemma UntouchedByNothing(mem: Words, T: seq<nat>, end: nat)
    requires Tiles(mem, T, end)
    ensures forall t :: t in T ==> Untouched(mem, mem, t)
  {
  }

  /** Freeing a block changes neither the tiling, nor the list, nor another block. */
  lemma FlagWritten(mem: Words, first: nat, T: seq<nat>, C: seq<nat>, end: nat, b: nat)
    requires Tiles(mem, T, end) && Chain(mem, first, T, C) && b in T
    ensures b in mem && b + FREE in mem && mem[b] <= MAX_BLOCK
    ensures var m := mem[b + FREE := 1];
            && Tiles(m, T, end) && Chain(m, first, T, C) && m.Keys == mem.Keys && m[b + FREE] == 1
            && forall t :: t in T && t != b ==> Untouched(mem, m, t)
  {
    WrittenInside(mem, mem[b + FREE := 1], first, T, C, end, b);
  }

  /** Writes inside a block that spare its size and its link keep tiling and list. */
  lemma WrittenInside(mem: Words, m: Words, first: nat, T: seq<nat>, C: seq<nat>, end: nat, b: nat)
    requires Tiles(mem, T, end) && Chain(mem, first, T, C) && b in T && mem.Keys <= m.Keys
    requires forall a :: a in mem && (a <= b || EndOf(mem, b) <= a || a == b + NEXT) ==> m[a] == mem[a]
    ensures Tiles(m, T, end) && Chain(m, first, T, C)
    ensures forall t :: t in T && t != b ==> Untouched(mem, m, t)
  {
    WritesInside(mem, m, T, end, b);
    TilesMapped(mem, T, end);
    MembersTiles(mem, first, T, C);
    assert SameLink(mem, m, b);
    hide Chain, Tiles;
    TilesFrame(mem, m, T, end);
    ChainFrame(mem, m, first, T, C);
  }

  function Bytes(n: nat): nat {
    if n == 1 then 0x100 else if n == 2 then 0x1_0000 else 0x100_0000
  }

  /** A word at `a` after `n` bytes from `base` on were cleared. */
  function Cleared(w: nat, a: nat, base: nat, n: nat): nat {
    if base <= a < base + n then if a + 4 <= base + n then 0 else w - w % Bytes(base + n - a) else w
  }

  lemma ClearedPayload(mem: Words, m: Words, first: nat, T: seq<nat>, C: seq<nat>, end: nat, b: nat, size: nat)
    requires Tiles(mem, T, end) && Chain(mem, first, T, C) && b in T && b in mem && size <= mem[b]
    requires forall a :: b + HEADER <= a < EndOf(mem, b) && a % 4 == 0 ==> a in mem
    requires m.Keys == mem.Keys && forall a :: a in mem ==> m[a] == Cleared(mem[a], a, b + HEADER, size)
    ensures Tiles(m, T, end) && Chain(m, first, T, C) && Zeroed(m, b + HEADER, size)
    ensures m[b] == mem[b] && (b + FREE in mem ==> m[b + FREE] == mem[b + FREE])
    ensures forall t :: t in T && t != b ==> Untouched(mem, m, t)
  {
    ClearedZero(mem, m, b + HEADER, size);
    hide Cleared, Zeroed, Tiles, Chain, Untouched;
    forall a | a in mem && (a <= b || EndOf(mem, b) <= a || a == b + NEXT)
      ensures m[a] == mem[a]
    {
      ClearedElsewhere(mem[a], a, b + HEADER, size);
    }
    ClearedElsewhere(mem[b], b, b + HEADER, size);
    if b + FREE in mem {
      ClearedElsewhere(mem[b + FREE], b + FREE, b + HEADER, size);
    }
    WrittenInside(mem, m, first, T, C, end, b);
  }

  lemma ClearedElsewhere(w: nat, a: nat, base: nat, n: nat)
    requires a < base || base + n <= a
    ensures Cleared(w, a, base, n) == w
  {
  }

  lemma ClearedZero(mem: Words, m: Words, base: nat, n: nat)
    requires forall a :: base <= a < base + n && a % 4 == 0 ==> a in mem
    requires m.Keys == mem.Keys && forall a :: a in mem ==> m[a] == Cleared(mem[a], a, base, n)
    ensures Zeroed(m, base, n)
  {
    forall a | base <= a < base + n && a % 4 == 0
      ensures a in m && if a + 4 <= base + n then m[a] == 0 else m[a] % Bytes(base + n - a) == 0
    {
      LowBytes(mem[a], base + n - a);
    }
  }

  /** Byte `k` of a word in memory, the low one first. */
  function ByteOf(w: nat, k: nat): nat {
    if k == 0 then w % 256
    else if k == 1 then w / 256 % 256
    else if k == 2 then w / 65536 % 256
    else w / 16777216 % 256
  }

  function Joined(b0: nat, b1: nat, b2: nat, high: nat): nat {
    b0 + 256 * b1 + 65536 * b2 + 16777216 * high
  }

  lemma BytesOfJoined(b0: nat, b1: nat, b2: nat, high: nat)
    requires b0 < 256 && b1 < 256 && b2 < 256
    ensures var w := Joined(b0, b1, b2, high);
            && ByteOf(w, 0) == b0 && ByteOf(w, 1) == b1 && ByteOf(w, 2) == b2 && ByteOf(w, 3) == high % 256
            && w % 0x100 == b0 && w % 0x1_0000 == b0 + 256 * b1 && w % 0x100_0000 == b0 + 256 * b1 + 65536 * b2
  {
    var w := Joined(b0, b1, b2, high);
    assert w == b0 + 256 * (b1 + 256 * b2 + 65536 * high);
    assert w == b0 + 256 * b1 + 65536 * (b2 + 256 * high);
    assert w / 256 == b1 + 256 * (b2 + 256 * high);
    assert w / 65536 == b2 + 256 * high;
    assert w / 16777216 == high;
  }

  lemma IsJoined(w: nat) returns (b0: nat, b1: nat, b2: nat, high: nat)
    ensures b0 < 256 && b1 < 256 && b2 < 256 && w == Joined(b0, b1, b2, high)
  {
    var x, y := w / 256, w / 256 / 256;
    b0, b1, b2, high := w % 256, x % 256, y % 256, y / 256;
  }

  /** Clearing `n` bytes from `base` on clears just these. */
  lemma ClearedBytes(w: nat, a: nat, base: nat, n: nat, k: nat)
    requires OnWord(base) && OnWord(a) && k < 4
    ensures ByteOf(Cleared(w, a, base, n), k) == if base <= a + k < base + n then 0 else ByteOf(w, k)
  {
    hide ByteOf, Joined;
    if base <= a < base + n {
      var b0, b1, b2, high := IsJoined(w);
      BytesOfJoined(b0, b1, b2, high);
      BytesOfJoined(0, 0, 0, 0);
      LessLow(b0, b1, b2, high);
      NothingJoined();
      BytesOfJoined(0, b1, b2, high);
      BytesOfJoined(0, 0, b2, high);
      BytesOfJoined(0, 0, 0, high);
    } else {
      FarWord(a, base, k);
    }
  }

  lemma LessLow(b0: nat, b1: nat, b2: nat, high: nat)
    ensures Joined(b0, b1, b2, high) - b0 == Joined(0, b1, b2, high)
    ensures Joined(b0, b1, b2, high) - (b0 + 256 * b1) == Joined(0, 0, b2, high)
    ensures Joined(b0, b1, b2, high) - (b0 + 256 * b1 + 65536 * b2) == Joined(0, 0, 0, high)
  {
    LessFirst(b0, b1, b2, high);
    LessSecond(b1, b2, high);
  }

  lemma LessFirst(b0: nat, b1: nat, b2: nat, high: nat)
    ensures Joined(b0, b1, b2, high) == b0 + Joined(0, b1, b2, high)
  {
  }

  lemma LessSecond(b1: nat, b2: nat, high: nat)
    ensures Joined(0, b1, b2, high) == 256 * b1 + Joined(0, 0, b2, high)
    ensures Joined(0, 0, b2, high) == 65536 * b2 + Joined(0, 0, 0, high)
  {
  }

  lemma NothingJoined()
    ensures Joined(0, 0, 0, 0) == 0
  {
  }

  /** A word that starts before another one ends before it. */
  lemma FarWord(a: nat, base: nat, k: nat)
    requires OnWord(base) && OnWord(a) && k < 4
    ensures a < base ==> a + k < base
  {
  }

  /** Every byte that is said to be zero is. */
  lemma ZeroedBytes(mem: Words, lo: nat, n: nat, x: nat)
    requires Zeroed(mem, lo, n) && OnWord(lo) && lo <= x < lo + n
    ensures x - x % 4 in mem && ByteOf(mem[x - x % 4], x % 4) == 0
  {
    hide ByteOf, Joined;
    var a, k := x - x % 4, x % 4;
    WordOfByte(lo, x);
    var b0, b1, b2, high := IsJoined(mem[a]);
    BytesOfJoined(b0, b1, b2, high);
    BytesOfJoined(0, 0, 0, 0);
    NothingJoined();
  }

  lemma WordOfByte(lo: nat, x: nat)
    requires OnWord(lo) && lo <= x
    ensures lo <= x - x % 4 && (x - x % 4) % 4 == 0
  {
  }

  lemma LowBytes(w: nat, n: nat)
    ensures (w - w % Bytes(n)) % Bytes(n) == 0
  {
  }

  /** Whole words, when base and length are words. */
  lemma WordsCleared(mem: Words, m: Words, base: nat, n: nat, lo: nat, hi: nat)
    requires Mapped(mem, lo, hi) && OnWord(base) && OnWord(n)
    requires m.Keys == mem.Keys && forall a :: a in mem ==> m[a] == Cleared(mem[a], a, base, n)
    ensures forall a :: a in mem ==> a in m && m[a] == if base <= a < base + n then 0 else mem[a]
  {
  }

  lemma KeptInTurn(mem: Words, T: seq<nat>, mem1: Words, T1: seq<nat>, mem2: Words, b: nat)
    requires AllKept(mem, T, mem1, T1) && !Live(mem, T, b)
    requires forall t :: t in T1 && t != b ==> Untouched(mem1, mem2, t)
    ensures AllKept(mem, T, mem2, T1)
  {
  }

  /** `n` bytes from `lo` on are mapped and zero. */
  ghost predicate Zeroed(mem: Words, lo: nat, n: nat) {
    forall a :: lo <= a < lo + n && a % 4 == 0 ==>
      a in mem && if a + 4 <= lo + n then mem[a] == 0 else mem[a] % Bytes(lo + n - a) == 0
  }

  lemma AllUntouched(mem: Words, T: seq<nat>, mem': Words, T': seq<nat>)
    requires forall t :: t in T ==> t in T' && Untouched(mem, mem', t)
    ensures AllKept(mem, T, mem', T')
  {
  }

  lemma KeptTwice(mem: Words, T: seq<nat>, mem1: Words, T1: seq<nat>, mem2: Words, T2: seq<nat>)
    requires AllKept(mem, T, mem1, T1) && AllKept(mem1, T1, mem2, T2)
    ensures AllKept(mem, T, mem2, T2)
  {
  }

  /** A block in use stays one, and one that was not in use before is not the same as one that was. */
  lemma StillLive(mem: Words, T: seq<nat>, mem': Words, T': seq<nat>, t: nat)
    requires AllKept(mem, T, mem', T') && Live(mem, T, t)
    ensures Live(mem', T', t) && t in T' && t in mem && t in mem' && mem'[t] == mem[t]
  {
  }

  /** Freeing block `f`, taken since `mem0`, leaves the later block `b` and all those of `mem0`. */
  lemma FreedBetween(mem0: Words, T0: seq<nat>, mem2: Words, T2: seq<nat>, mem3: Words, f: nat, b: nat)
    requires AllKept(mem0, T0, mem2, T2) && !Live(mem0, T0, f)
    requires b != f && Live(mem2, T2, b) && forall t :: t in T2 && t != f ==> Untouched(mem2, mem3, t)
    ensures AllKept(mem0, T0, mem3, T2) && Live(mem3, T2, b) && Untouched(mem2, mem3, b)
  {
    KeptInTurn(mem0, T0, mem2, T2, mem3, f);
  }

  lemma ZeroedKept(mem: Words, mem': Words, b: nat, n: nat)
    requires Untouched(mem, mem', b) && n <= mem[b] && Zeroed(mem, b + HEADER, n)
    ensures Zeroed(mem', b + HEADER, n)
  {
  }

  /** Where the directory goes if the heap end leaves just a header before a page boundary. */
  lemma DirPlace(mem0: Words, mem1: Words, T1: seq<nat>, c0: nat, f: nat, end: nat, k: nat, b: nat)
    requires FirstFit(mem1, [c0, f], end, PAGE, k, b) && Untouched(mem0, mem1, c0) && Live(mem1, T1, f)
    requires c0 == HEAP_BOTTOM && c0 + FREE in mem0 && OnPage(end + HEADER)
    ensures if Fits(mem0, c0, PAGE) then k == 0 && b == c0 && !OnPage(b + HEADER) else k == 2 && b == end
  {
    assert Fits(mem1, c0, PAGE) <==> Fits(mem0, c0, PAGE);
    assert [c0, f][0] == c0 && [c0, f][1] == f;
  }

  lemma NothingLeft(current: nat, remaining: nat)
    requires OnPage(current) && OnPage(current + remaining) && remaining < PAGE
    ensures remaining == 0
  {
  }

  lemma PageAfter(dir: nat)
    requires OnPage(dir)
    ensures OnPage(dir + PAGE)
  {
  }

  /** An ordered choice of the elements of an ordered list. */
  lemma {:induction false} SomeOf(C: seq<nat>, T: seq<nat>)
    requires Increasing(C) && Increasing(T) && forall k :: 0 <= k < |C| ==> C[k] in T
    ensures |C| <= |T| && (|C| == |T| ==> C == T)
    decreases |T|
  {
    if C != [] {
      var i :| 0 <= i < |T| && T[i] == C[|C| - 1];
      var c, t := C[..|C| - 1], T[..i];
      forall k | 0 <= k < |c|
        ensures c[k] in t
      {
        var j :| 0 <= j < |T| && T[j] == C[k];
        assert C[k] < C[|C| - 1];
        assert j < i;
        assert t[j] == c[k];
      }
      SomeOf(c, t);
      if |C| == |T| {
        assert C == c + [C[|C| - 1]] && T == t + [T[i]];
      }
    }
  }

  /** The request for a page is served by a linked block whose payload starts on a page. */
  ghost predicate PageFree(mem: Words, C: seq<nat>, end: nat) {
    exists k :: 0 <= k < |C| && FirstFit(mem, C, end, PAGE, k, C[k]) && OnPage(C[k] + HEADER)
  }

  /** Where the directory goes if the heap end is on a page boundary: only a free block can be right,
      a new one never is. */
  lemma DirInPlace(mem: Words, C: seq<nat>, end: nat, k: nat, b: nat)
    requires OnPage(end) && FirstFit(mem, C, end, PAGE, k, b)
    ensures OnPage(b + HEADER) <==> PageFree(mem, C, end)
    ensures k == |C| ==> b == end && !OnPage(b + HEADER)
  {
    if k < |C| && OnPage(b + HEADER) {
      assert FirstFit(mem, C, end, PAGE, k, C[k]);
    }
  }
}
