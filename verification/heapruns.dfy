/** Whole runs of the kernel heap: any requests, in any order. */
module HeapRuns {
  import opened HeapSpec
  import opened KernelHeap

  datatype HeapOp = MallocOp(size: nat) | CallocOp(size: nat) | FreeOp(i: nat) | AlignOp | CreateOp

  /** The blocks that were handed out are blocks of the heap. */
  ghost predicate Pointers(heap: Heap, ptrs: seq<nat>)
    reads heap
  {
    forall i :: 0 <= i < |ptrs| ==> ptrs[i] >= HEADER && ptrs[i] - HEADER in heap.Members()
  }

  // where the heap ends, and how many blocks are linked and how many are not
  datatype View = View(current: nat, linked: nat, lost: int)

  ghost function ViewOf(heap: Heap): View
    reads heap
  {
    View(heap.current, |heap.C|, heap.Lost())
  }

  /** An alignment request, alone or for a directory, that takes the growing branch. */
  predicate Grows(v: View, op: HeapOp) {
    && (op == AlignOp || op == CreateOp) && v.current + (if op == AlignOp then 2 else 4) * PAGE <= HEAP_LIMIT
    && !OnPage(v.current) && v.linked >= 2
  }

  /** What a request does: the heap only grows, and blocks get lost exactly if it does so for
      alignment. */
  predicate Step(v: View, op: HeapOp, v': View) {
    v.current <= v'.current && if Grows(v, op) then v'.lost > 0 else v'.lost == v.lost
  }

  /** What the caller gets: a request for a block in use that was not, for as many bytes as asked and
      zeroed if asked, and with `free` the block is not in use any more.  All others in use are kept. */
  ghost predicate Answered(op: HeapOp, heap: Heap, ptrs0: seq<nat>, ptrs: seq<nat>, mem0: Words, T0: seq<nat>,
                           end: nat)
    reads heap
  {
    match op
    case MallocOp(size) =>
      && AllKept(mem0, T0, heap.mem, heap.T)
      && (0 < size < 0x1_0000_0000 - 3 && end + size + 3 + HEADER <= HEAP_LIMIT ==>
            Got(heap, ptrs0, ptrs, mem0, T0, size))
    case CallocOp(size) =>
      && AllKept(mem0, T0, heap.mem, heap.T)
      && (0 < size < 0x1_0000_0000 - 3 && end + size + 3 + HEADER <= HEAP_LIMIT ==>
            Got(heap, ptrs0, ptrs, mem0, T0, size) && Zeroed(heap.mem, ptrs[|ptrs0|], size))
    case FreeOp(i) =>
      ptrs == ptrs0 && (i < |ptrs0| ==>
        && ptrs0[i] >= HEADER && !Live(heap.mem, heap.T, ptrs0[i] - HEADER)
        && forall t :: t in heap.T && t != ptrs0[i] - HEADER ==> Untouched(mem0, heap.mem, t))
    case AlignOp =>
      && AllKept(mem0, T0, heap.mem, heap.T)
      && ptrs == if OnPage(end) || end + 2 * PAGE > HEAP_LIMIT then ptrs0 else ptrs0 + [end + HEADER]
    case CreateOp =>
      && AllKept(mem0, T0, heap.mem, heap.T)
      && (end + 4 * PAGE <= HEAP_LIMIT ==>
            Got(heap, ptrs0, ptrs, mem0, T0, PAGE) && Zeroed(heap.mem, ptrs[|ptrs0|], PAGE))
  }

  ghost predicate Got(heap: Heap, ptrs0: seq<nat>, ptrs: seq<nat>, mem0: Words, T0: seq<nat>, size: nat)
    reads heap
  {
    && |ptrs| == |ptrs0| + 1 && ptrs[..|ptrs0|] == ptrs0
    && var p := ptrs[|ptrs0|];
       && p >= HEADER && Live(heap.mem, heap.T, p - HEADER) && !Live(mem0, T0, p - HEADER)
       && p - HEADER in heap.mem && heap.mem[p - HEADER] >= size
  }

  /** `malloc`, if the heap may grow so far. */
  method Ask(heap: Heap, size: nat, ptrs0: seq<nat>) returns (ptrs: seq<nat>, failed: bool)
    requires heap.Valid() && !heap.panicked && Pointers(heap, ptrs0)
    modifies heap
    ensures heap.Valid() && (!failed ==> !heap.panicked && Pointers(heap, ptrs))
    ensures !failed ==> Step(old(ViewOf(heap)), MallocOp(size), ViewOf(heap))
    ensures !failed ==> Answered(MallocOp(size), heap, ptrs0, ptrs, old(heap.mem), old(heap.T), old(heap.current))
  {
    hide Tiles, Chain, Mapped, Paged, AlignUp, OnPage, OnWord, AllKept, Untouched, Zeroed, Live;
    ptrs, failed := ptrs0, false;
    NothingTouched(heap.mem, heap.T, heap.current);
    if size < 0x1_0000_0000 {
      Aligned(size);
      if heap.current + AlignUp(size) + HEADER <= HEAP_LIMIT {
        var p, k := heap.Malloc(size);
        failed := heap.panicked;
        if p != 0 {
          ptrs := ptrs + [p];
          LiveIsMember(heap, p);
        }
      }
    }
  }

  /** `calloc`, if the heap may grow so far and the size does not wrap around. */
  method AskZeroed(heap: Heap, size: nat, ptrs0: seq<nat>) returns (ptrs: seq<nat>, failed: bool)
    requires heap.Valid() && !heap.panicked && Pointers(heap, ptrs0)
    modifies heap
    ensures heap.Valid() && (!failed ==> !heap.panicked && Pointers(heap, ptrs))
    ensures !failed ==> Step(old(ViewOf(heap)), CallocOp(size), ViewOf(heap))
    ensures !failed ==> Answered(CallocOp(size), heap, ptrs0, ptrs, old(heap.mem), old(heap.T), old(heap.current))
  {
    hide Tiles, Chain, Mapped, Paged, AlignUp, OnPage, OnWord, AllKept, Untouched, Zeroed, Live;
    ptrs, failed := ptrs0, false;
    NothingTouched(heap.mem, heap.T, heap.current);
    if size + 3 < 0x1_0000_0000 {
      Aligned(size);
      if heap.current + AlignUp(size) + HEADER <= HEAP_LIMIT {
        var p, k := heap.Calloc(size);
        failed := heap.panicked;
        if p != 0 {
          ptrs := ptrs + [p];
          LiveIsMember(heap, p);
        }
      }
    }
  }

  lemma LiveIsMember(heap: Heap, p: nat)
    ensures p >= HEADER && Live(heap.mem, heap.T, p - HEADER) ==> p - HEADER in heap.Members()
  {
  }

  /** One request, within the limits of the address space.  It fails on a panic and on a read through
      NULL. */
  method Perform(heap: Heap, op: HeapOp, ptrs0: seq<nat>) returns (ptrs: seq<nat>, failed: bool)
    requires heap.Valid() && !heap.panicked && Pointers(heap, ptrs0)
    modifies heap
    ensures heap.Valid() && (!failed ==> !heap.panicked && Pointers(heap, ptrs))
    ensures !failed ==> Step(old(ViewOf(heap)), op, ViewOf(heap))
    ensures !failed ==> Answered(op, heap, ptrs0, ptrs, old(heap.mem), old(heap.T), old(heap.current))
  {
    hide Tiles, Chain, Mapped, Paged, AlignUp, OnPage, OnWord, AllKept, Untouched, Zeroed, Live, PageFree, Fits;
    ptrs, failed := ptrs0, false;
    heap.NoneLost();
    NothingTouched(heap.mem, heap.T, heap.current);
    match op
    case MallocOp(size) => ptrs, failed := Ask(heap, size, ptrs0);
    case CallocOp(size) => ptrs, failed := AskZeroed(heap, size, ptrs0);
    case FreeOp(i) =>
      if i < |ptrs| {
        heap.Free(ptrs[i]);
      }
    case AlignOp =>
      if heap.current + 2 * PAGE <= HEAP_LIMIT {
        ghost var mem0, T0 := heap.mem, heap.T;
        var p;
        p, failed := heap.Align();
        AllUntouched(mem0, T0, heap.mem, heap.T);
        if p != 0 {
          ptrs := ptrs + [p];
          LiveIsMember(heap, p);
        }
      }
    case CreateOp =>
      if heap.current + 4 * PAGE <= HEAP_LIMIT {
        var dir;
        dir, failed := heap.AddrCreate();
        ptrs := ptrs + [dir];
        LiveIsMember(heap, dir);
      }
  }

  /** Over any run no block is lost from the list exactly if no request grew the heap for alignment.
      `views` has the heap before each request and at the end. */
  method RunHeap(dirt: nat -> nat, ops: seq<HeapOp>) returns (heap: Heap, failed: bool, ghost views: seq<View>)
    ensures heap.Valid() && 0 < |views| <= |ops| + 1 && views[0] == View(HEAP_BOTTOM, 0, 0)
    ensures !failed ==> !heap.panicked && |views| == |ops| + 1 && views[|ops|] == ViewOf(heap)
    ensures !failed ==> forall i :: 0 <= i < |ops| ==> Step(views[i], ops[i], views[i + 1])
    ensures !failed ==> (heap.C == heap.T <==> forall i :: 0 <= i < |ops| ==> !Grows(views[i], ops[i]))
  {
    hide Tiles, Chain, Mapped, Paged, OnPage, OnWord, Grows;
    heap := new Heap(dirt, 0);
    var ptrs, i := [], 0;
    failed, views := false, [ViewOf(heap)];
    while i < |ops| && !failed
      invariant i <= |ops| && fresh(heap) && heap.Valid()
      invariant 0 < |views| <= |ops| + 1 && views[0] == View(HEAP_BOTTOM, 0, 0)
      invariant !failed ==> !heap.panicked && Pointers(heap, ptrs) && |views| == i + 1 && views[i] == ViewOf(heap)
      invariant !failed ==> forall k :: 0 <= k < i ==> Step(views[k], ops[k], views[k + 1])
      invariant !failed ==> (heap.Lost() == 0 <==> forall k :: 0 <= k < i ==> !Grows(views[k], ops[k]))
    {
      heap.NoneLost();
      ptrs, failed := Perform(heap, ops[i], ptrs);
      i := i + 1;
      if !failed {
        views := views + [ViewOf(heap)];
      }
    }
    if !failed {
      heap.NoneLost();
    }
  }
}
