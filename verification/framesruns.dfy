/** Whole runs of the frame allocator: any calls, in any order, by callers that give back what they
    got. */
module FramesRuns {
  import opened Frames

  datatype FrameOp = AllocOp | FreeOp(k: nat) | SetOp(addr: nat)

  function Below(n: nat): (s: set<nat>)
    ensures |s| == n && forall b: nat :: b in s <==> b < n
  {
    if n == 0 then {} else Below(n - 1) + {n - 1}
  }

  lemma SmallerSet(a: set<nat>, b: set<nat>)
    requires a <= b
    ensures |a| <= |b|
  {
    if a != {} {
      var x :| x in a;
      SmallerSet(a - {x}, b - {x});
    }
  }

  /** With a counter so far ahead of the bits, it says of no full bitmap that there is a frame. */
  lemma ClearBit(ws: seq<Word>, max: nat, ahead: nat)
    requires |Taken(ws)| + ahead < max && ahead >= max % 32
    ensures HasClear(ws, 32 * (max / 32))
  {
    if !HasClear(ws, 32 * (max / 32)) {
      assert Below(32 * (max / 32)) <= Taken(ws);
      SmallerSet(Below(32 * (max / 32)), Taken(ws));
    }
  }

  /** All words are ones. */
  function Full(n: nat): (ws: seq<Word>)
    ensures |ws| == n && forall i :: 0 <= i < n ==> AllOnes(ws[i])
  {
    seq(n, _ => seq(32, _ => true))
  }

  lemma FullTaken(n: nat)
    ensures Taken(Full(n)) == Below(32 * n)
  {
    forall b: nat | b < 32 * n
      ensures Bit(Full(n), b)
    {
      assert AllOnes(Full(n)[b / 32]);
    }
  }

  /** Whenever the counter says that there is a free frame, the whole words have one, exactly if the
      counter is ahead by at least the frames in the last, unfinished word. */
  lemma AlwaysFound(max: nat, ahead: nat)
    ensures (forall ws: seq<Word> {:trigger HasClear(ws, 32 * (max / 32))} ::
               |Taken(ws)| + ahead < max ==> HasClear(ws, 32 * (max / 32)))
            <==> ahead >= max % 32
  {
    if ahead >= max % 32 {
      forall ws: seq<Word> | |Taken(ws)| + ahead < max
        ensures HasClear(ws, 32 * (max / 32))
      {
        ClearBit(ws, max, ahead);
      }
    } else {
      var ws := Full(max / 32);
      FullTaken(max / 32);
      assert !HasClear(ws, 32 * (max / 32));
    }
  }

  /** The addresses that callers hold: those of the live frames, each once. */
  ghost predicate Holding(live: set<nat>, held: seq<nat>) {
    && (forall i :: 0 <= i < |held| ==> held[i] != 0 && held[i] % PHYS_MM_BLOCK == 0 && FrameOf(held[i]) in live)
    && (forall i, j :: 0 <= i < j < |held| ==> held[i] != held[j])
    && |held| == |live|
  }

  /** The counter is ahead of the bits by `ahead`, without wrap-around. */
  ghost predicate Counted(mm: PhysMM, ahead: nat)
    reads mm, mm.bitmap
  {
    && mm.Valid() && mm.used == |Taken(mm.bitmap[..])| + ahead && ahead >= mm.max % 32
    && ahead + 32 * mm.bitmap.Length < U32
  }

  lemma TakenFew(ws: seq<Word>)
    ensures |Taken(ws)| <= 32 * |ws|
  {
    SmallerSet(Taken(ws), Below(32 * |ws|));
  }

  /** In step modulo 2^32 is in step, as the bits are few. */
  lemma InStep(used: nat, ws: seq<Word>, ahead: nat)
    requires used < U32 && ahead + 32 * |ws| < U32
    ensures Wrap(used - |Taken(ws)|) == ahead <==> used == |Taken(ws)| + ahead
  {
    TakenFew(ws);
    hide Taken;
  }

  /** One more frame is held. */
  lemma HeldMore(live: set<nat>, held: seq<nat>, addr: nat)
    requires Holding(live, held) && addr != 0 && addr % PHYS_MM_BLOCK == 0 && FrameOf(addr) !in live
    ensures Holding(live + {FrameOf(addr)}, held + [addr]) && addr !in held
  {
  }

  lemma HeldLess(live: set<nat>, held: seq<nat>, k: nat)
    requires Holding(live, held) && k < |held|
    ensures FrameOf(held[k]) in live && FrameOf(held[k]) != 0
    ensures Holding(live - {FrameOf(held[k])}, held[..k] + held[k + 1..])
  {
    var rest := held[..k] + held[k + 1..];
    forall i | 0 <= i < |rest|
      ensures rest[i] == held[if i < k then i else i + 1] && FrameOf(rest[i]) != FrameOf(held[k])
    {
    }
  }

  lemma LeastNotTaken(ws: seq<Word>, limit: nat, b: nat)
    requires LeastClear(ws, limit, b)
    ensures b !in Taken(ws)
  {
  }

  // the addresses that are held, and the frames whose bits are set
  datatype View = View(held: seq<nat>, taken: set<nat>)

  /** What a call does to both: a frame that was not taken is taken and held as long as the counter is
      below its maximum, one that is given back is neither, and one that is set is taken. */
  ghost predicate Step(v: View, op: FrameOp, v': View, max: nat, ahead: nat) {
    match op
    case AllocOp =>
      if |v.taken| + ahead >= max then v' == v
      else
        && |v'.held| == |v.held| + 1 && v'.held[..|v.held|] == v.held
        && var addr := v'.held[|v.held|];
           addr % 4096 == 0 && addr / 4096 !in v.taken && v'.taken == v.taken + {addr / 4096}
    case FreeOp(k) =>
      if k >= |v.held| then v' == v
      else v'.held == v.held[..k] + v.held[k + 1..] && v'.taken == v.taken - {v.held[k] / 4096}
    case SetOp(addr) => v'.held == v.held && v'.taken == v.taken + {addr / 4096}
  }

  /** `phys_mm_block_alloc`: the frame is held by nobody, and there is one unless the counter is at its
      maximum. */
  method Take(mm: PhysMM, held0: seq<nat>, ghost ahead: nat) returns (held: seq<nat>)
    requires Counted(mm, ahead) && Holding(mm.live, held0)
    modifies mm, mm.bitmap
    ensures Counted(mm, ahead) && Holding(mm.live, held)
    ensures if old(mm.used) >= mm.max then held == held0
            else held != [] && held[..|held| - 1] == held0 && held[|held| - 1] !in held0
    ensures Step(View(held0, old(Taken(mm.bitmap[..]))), AllocOp, View(held, Taken(mm.bitmap[..])), mm.max, ahead)
  {
    hide Taken, Wrap, Holding, HasClear, LeastClear;
    ghost var live, ws := mm.live, mm.bitmap[..];
    held := held0;
    InStep(mm.used, mm.bitmap[..], ahead);
    if mm.used < mm.max {
      ClearBit(mm.bitmap[..], mm.max, ahead);
    }
    var addr := mm.BlockAlloc();
    if addr != 0 {
      HeldMore(live, held0, addr);
      held := held0 + [addr];
      LeastNotTaken(ws, 32 * (mm.max / 32), addr / PHYS_MM_BLOCK);
    }
    InStep(mm.used, mm.bitmap[..], ahead);
  }

  /** `phys_mm_block_free` of a frame that is held. */
  method GiveBack(mm: PhysMM, k: nat, held0: seq<nat>, ghost ahead: nat) returns (held: seq<nat>)
    requires Counted(mm, ahead) && Holding(mm.live, held0) && k < |held0|
    modifies mm, mm.bitmap
    ensures Counted(mm, ahead) && Holding(mm.live, held) && held == held0[..k] + held0[k + 1..]
    ensures Step(View(held0, old(Taken(mm.bitmap[..]))), FreeOp(k), View(held, Taken(mm.bitmap[..])), mm.max, ahead)
  {
    hide Taken, Wrap, Holding;
    HeldLess(mm.live, held0, k);
    InStep(mm.used, mm.bitmap[..], ahead);
    TakenBits(mm.bitmap[..]);
    mm.BlockFree(held0[k]);
    held := held0[..k] + held0[k + 1..];
    InStep(mm.used, mm.bitmap[..], ahead);
  }

  /** `phys_mm_addr_set` */
  method Reserve(mm: PhysMM, addr: nat, ghost held: seq<nat>, ghost ahead: nat)
    requires Counted(mm, ahead) && Holding(mm.live, held) && FrameOf(addr) / 32 < mm.bitmap.Length
    modifies mm, mm.bitmap
    ensures Counted(mm, ahead) && Holding(mm.live, held)
    ensures Step(View(held, old(Taken(mm.bitmap[..]))), SetOp(addr), View(held, Taken(mm.bitmap[..])), mm.max, ahead)
  {
    hide Taken, Wrap, Holding;
    InStep(mm.used, mm.bitmap[..], ahead);
    mm.AddrSet(addr);
    InStep(mm.used, mm.bitmap[..], ahead);
  }

  /** Over any run no frame is held twice, and the counter stays ahead of the bits by the same
      amount.  `views` has what is held and taken before each call and at the end. */
  method RunFrames(mm: PhysMM, ops: seq<FrameOp>, ghost ahead: nat) returns (held: seq<nat>, ghost views: seq<View>)
    requires Counted(mm, ahead) && mm.live == {}
    requires forall op :: op in ops && op.SetOp? ==> FrameOf(op.addr) / 32 < mm.bitmap.Length
    modifies mm, mm.bitmap
    ensures Counted(mm, ahead) && Holding(mm.live, held) && |views| == |ops| + 1
    ensures views[0] == View([], old(Taken(mm.bitmap[..]))) && views[|ops|] == View(held, Taken(mm.bitmap[..]))
    ensures forall i :: 0 <= i < |ops| ==> Step(views[i], ops[i], views[i + 1], mm.max, ahead)
  {
    hide Taken, Wrap, FrameOf, Step, Holding;
    held, views := [], [View([], Taken(mm.bitmap[..]))];
    NothingHeld();
    var i := 0;
    while i < |ops|
      invariant i <= |ops| && Counted(mm, ahead) && Holding(mm.live, held) && |views| == i + 1
      invariant views[0] == View([], old(Taken(mm.bitmap[..]))) && views[i] == View(held, Taken(mm.bitmap[..]))
      invariant forall j :: 0 <= j < i ==> Step(views[j], ops[j], views[j + 1], mm.max, ahead)
    {
      match ops[i] {
        case AllocOp => held := Take(mm, held, ahead);
        case FreeOp(k) =>
          if k < |held| {
            held := GiveBack(mm, k, held, ahead);
          } else {
            NothingFreed(views[i], k, mm.max, ahead);
          }
        case SetOp(addr) => Reserve(mm, addr, held, ahead);
      }
      i := i + 1;
      views := views + [View(held, Taken(mm.bitmap[..]))];
    }
  }

  lemma NothingHeld()
    ensures Holding({}, [])
  {
  }

  lemma NothingFreed(v: View, k: nat, max: nat, ahead: nat)
    requires k >= |v.held|
    ensures Step(v, FreeOp(k), v, max, ahead)
  {
  }
}
