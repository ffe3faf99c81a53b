/** Physical frames: `kernel/utils/bitmap.c` and `kernel/memory/physical.c`. */
module Frames {
  const U32: nat := 0x1_0000_0000
  const PHYS_MM_BLOCK: nat := 4096

  // a 32-bit word, bit by bit
  type Word = w: seq<bool> | |w| == 32 witness seq(32, _ => false)

  predicate AllOnes(w: Word) {
    forall j :: 0 <= j < 32 ==> w[j]
  }

  function Bit(ws: seq<Word>, b: nat): bool {
    b / 32 < |ws| && ws[b / 32][b % 32]
  }

  /** The frames whose bit is set. */
  ghost function Taken(ws: seq<Word>): (s: set<nat>)
    ensures forall b: nat :: b in s <==> b < 32 * |ws| && Bit(ws, b)
  {
    set b: nat | b < 32 * |ws| && Bit(ws, b)
  }

  function Written(ws: seq<Word>, b: nat, on: bool): seq<Word>
    requires b / 32 < |ws|
  {
    ws[b / 32 := ws[b / 32][b % 32 := on]]
  }

  lemma BitWritten(ws: seq<Word>, b: nat, on: bool, c: nat)
    requires b / 32 < |ws|
    ensures Bit(Written(ws, b, on), c) == if c == b then on else Bit(ws, c)
  {
    if c != b {
      assert c / 32 != b / 32 || c % 32 != b % 32;
    }
  }

  /** Setting or clearing one bit. */
  lemma TakenWritten(ws: seq<Word>, b: nat, on: bool)
    requires b / 32 < |ws|
    ensures Taken(Written(ws, b, on)) == if on then Taken(ws) + {b} else Taken(ws) - {b}
  {
    forall c: nat
      ensures Bit(Written(ws, b, on), c) == if c == b then on else Bit(ws, c)
    {
      BitWritten(ws, b, on, c);
    }
  }

  /** `b` is the first frame below `limit` whose bit is clear. */
  ghost predicate LeastClear(ws: seq<Word>, limit: nat, b: nat) {
    b < limit && !Bit(ws, b) && forall c: nat :: c < b ==> Bit(ws, c)
  }

  ghost predicate HasClear(ws: seq<Word>, limit: nat) {
    exists b: nat :: b < limit && b !in Taken(ws)
  }

  function FrameOf(addr: nat): nat { addr / PHYS_MM_BLOCK }

  /** A 32-bit counter. */
  function Wrap(x: int): nat { x % U32 }

  /** Counter and bits move together. */
  lemma WrapStep(used: nat, n: int)
    ensures Wrap(Wrap(used + 1) - (n + 1)) == Wrap(used - n) && Wrap(Wrap(used as int - 1) - (n - 1)) == Wrap(used - n)
  {
  }

  /** The counter alone does not move in step. */
  lemma WrapBack(used: nat, n: int)
    ensures Wrap(Wrap(used as int - 1) - n) != Wrap(used - n)
  {
  }

  lemma FreeStep(ws: seq<Word>, b: nat, used: nat)
    requires b / 32 < |ws|
    ensures Wrap(used as int - 1) < U32 && Taken(Written(ws, b, false)) == Taken(ws) - {b}
    ensures Wrap(Wrap(used as int - 1) - |Taken(Written(ws, b, false))|) == Wrap(used - |Taken(ws)|) <==> b in Taken(ws)
  {
    hide Wrap, Taken, Written;
    TakenWritten(ws, b, false);
    WrapSmall(used - 1);
    if b in Taken(ws) {
      assert |Taken(ws) - {b}| == |Taken(ws)| - 1;
      WrapStep(used, |Taken(ws)|);
    } else {
      assert Taken(ws) - {b} == Taken(ws);
      WrapBack(used, |Taken(ws)|);
    }
  }

  /** Freeing frame 1 when no frame is taken moves the counter from 5 to 4 and no bit. */
  lemma FreeWrong()
    ensures var ws: seq<Word> := [seq(32, _ => false)];
            Taken(ws) == {} && Taken(Written(ws, 1, false)) == {} && Wrap(Wrap(5 - 1) - 0) != Wrap(5 - 0)
  {
    TakenWritten([seq(32, _ => false)], 1, false);
  }

  lemma WrapSmall(x: int)
    ensures Wrap(x) < U32
  {
  }

  class PhysMM {
    const bitmap: array<Word>
    const max: nat
    var used: nat
    // the frames handed out and not given back
    ghost var live: set<nat>

    constructor (max: nat, bitmap: array<Word>, used: nat)
      requires max / 32 <= bitmap.Length && used < U32 && 32 * bitmap.Length < U32 && Bit(bitmap[..], 0)
      ensures Valid() && this.bitmap == bitmap && this.used == used && this.max == max && live == {}
    {
      this.max, this.bitmap, this.used, live := max, bitmap, used, {};
    }

    /** Every live frame's bit is set, and so is the bit of frame 0, which is never handed out. */
    ghost predicate Valid()
      reads this, bitmap
    {
      && max / 32 <= bitmap.Length && used < U32 && 32 * bitmap.Length < U32
      && 0 in Taken(bitmap[..]) && 0 !in live && live <= Taken(bitmap[..])
    }

    /** By how much the counter is ahead of the bits, as a 32-bit number. */
    ghost function Ahead(): nat
      reads this, bitmap
    {
      Wrap(used - |Taken(bitmap[..])|)
    }

    /** `bitmap_set` and `bitmap_unset` */
    method Set(b: nat)
      requires b / 32 < bitmap.Length
      modifies bitmap
      ensures bitmap[..] == Written(old(bitmap[..]), b, true)
    {
      bitmap[b / 32] := bitmap[b / 32][b % 32 := true];
    }

    method Unset(b: nat)
      requires b / 32 < bitmap.Length
      modifies bitmap
      ensures bitmap[..] == Written(old(bitmap[..]), b, false)
    {
      bitmap[b / 32] := bitmap[b / 32][b % 32 := false];
    }

    /** `bitmap_get_first` skips words that are all ones.  It finds the least clear bit of the whole
        words below `frames`, and is -1 as an unsigned number if there is none. */
    method GetFirst(frames: nat) returns (b: nat)
      requires frames / 32 <= bitmap.Length && 32 * bitmap.Length < U32
      ensures LeastClear(bitmap[..], 32 * (frames / 32), b) ||
              (b == U32 - 1 && forall c: nat :: c < 32 * (frames / 32) ==> Bit(bitmap[..], c))
    {
      var i := 0;
      while i < frames / 32
        invariant i <= frames / 32
        invariant forall c: nat :: c < 32 * i ==> Bit(bitmap[..], c)
      {
        if !AllOnes(bitmap[i]) {
          var j := 0;
          while j < 32
            invariant j <= 32 && forall l :: 0 <= l < j ==> bitmap[i][l]
          {
            if !bitmap[i][j] {
              FirstInWord(bitmap[..], i, j);
              return i * 32 + j;
            }
            j := j + 1;
          }
        }
        WordFull(bitmap[..], i);
        i := i + 1;
      }
      return U32 - 1;
    }

    /** `phys_mm_block_alloc`.  Domain: a bit is clear in the scanned words if the counter says so.
        The frame is not live, and the counter moves with the bits. */
    method BlockAlloc() returns (addr: nat)
      requires Valid()
      requires used < max ==> HasClear(bitmap[..], 32 * (max / 32))
      modifies this, bitmap
      ensures Valid() && Ahead() == old(Ahead())
      ensures addr == 0 <==> old(used) >= max
      ensures addr == 0 ==> live == old(live) && bitmap[..] == old(bitmap[..]) && used == old(used)
      ensures addr != 0 ==>
              addr % PHYS_MM_BLOCK == 0 && addr / PHYS_MM_BLOCK !in old(live) &&
              live == old(live) + {addr / PHYS_MM_BLOCK}
      ensures addr != 0 ==> LeastClear(old(bitmap[..]), 32 * (max / 32), addr / PHYS_MM_BLOCK)
      ensures addr != 0 ==> Taken(bitmap[..]) == old(Taken(bitmap[..])) + {addr / PHYS_MM_BLOCK}
    {
      hide Taken, Wrap, Bit, Written;
      addr := 0;
      if max <= used {
        return;
      }
      TakenBits(bitmap[..]);
      var bit := GetFirst(max);
      if bit <= 0 {
        return;
      }
      TakenWritten(bitmap[..], bit, true);
      WrapStep(used, |Taken(bitmap[..])|);
      WrapSmall(used + 1);
      Set(bit);
      used := Wrap(used + 1);
      live := live + {bit};
      addr := PHYS_MM_BLOCK * bit;
    }

    /** `phys_mm_block_free`, of whatever frame.  The counter goes down in any case, so that it stays in
        step exactly if the frame's bit was set. */
    method BlockFree(block: nat)
      requires Valid() && FrameOf(block) / 32 < bitmap.Length
      modifies this, bitmap
      ensures block == 0 ==> live == old(live) && bitmap[..] == old(bitmap[..]) && used == old(used)
      ensures block != 0 ==>
              live == old(live) - {FrameOf(block)} &&
              Taken(bitmap[..]) == old(Taken(bitmap[..])) - {FrameOf(block)}
      ensures Ahead() == old(Ahead()) <==> block == 0 || FrameOf(block) in old(Taken(bitmap[..]))
      ensures block == 0 || FrameOf(block) != 0 ==> Valid()
    {
      if block == 0 {
        return;
      }
      Release(FrameOf(block));
    }

    /** The bit is cleared, and the counter goes down. */
    method Release(bit: nat)
      requires Valid() && bit / 32 < bitmap.Length
      modifies this, bitmap
      ensures live == old(live) - {bit} && Taken(bitmap[..]) == old(Taken(bitmap[..])) - {bit}
      ensures Ahead() == old(Ahead()) <==> bit in old(Taken(bitmap[..]))
      ensures bit != 0 ==> Valid()
    {
      hide Wrap, Bit, Written, Taken;
      FreeStep(bitmap[..], bit, used);
      Unset(bit);
      used := Wrap(used - 1);
      live := live - {bit};
    }

    /** `phys_mm_addr_set`: the frame is never handed out from then on. */
    method AddrSet(addr: nat)
      requires Valid() && addr / PHYS_MM_BLOCK / 32 < bitmap.Length
      modifies this`used, bitmap
      ensures Valid() && Ahead() == old(Ahead())
      ensures Taken(bitmap[..]) == old(Taken(bitmap[..])) + {addr / PHYS_MM_BLOCK}
    {
      var frame := addr / PHYS_MM_BLOCK;
      if !bitmap[frame / 32][frame % 32] {
        TakenWritten(bitmap[..], frame, true);
        WrapStep(used, |Taken(bitmap[..])|);
        WrapSmall(used + 1);
        Set(frame);
        used := Wrap(used + 1);
      }
    }
  }

  lemma TakenBits(ws: seq<Word>)
    ensures forall b: nat :: b in Taken(ws) <==> b < 32 * |ws| && Bit(ws, b)
  {
  }

  lemma WordFull(ws: seq<Word>, i: nat)
    requires i < |ws| && AllOnes(ws[i]) && forall c: nat :: c < 32 * i ==> Bit(ws, c)
    ensures forall c: nat :: c < 32 * (i + 1) ==> Bit(ws, c)
  {
    forall c: nat | c < 32 * (i + 1)
      ensures Bit(ws, c)
    {
      if c >= 32 * i {
        assert c / 32 == i;
      }
    }
  }

  lemma FirstInWord(ws: seq<Word>, i: nat, j: nat)
    requires i < |ws| && j < 32 && !ws[i][j] && forall l :: 0 <= l < j ==> ws[i][l]
    requires forall c: nat :: c < 32 * i ==> Bit(ws, c)
    ensures !Bit(ws, i * 32 + j) && forall c: nat :: c < i * 32 + j ==> Bit(ws, c)
  {
    assert (i * 32 + j) / 32 == i && (i * 32 + j) % 32 == j;
    forall c: nat | c < i * 32 + j
      ensures Bit(ws, c)
    {
      if c >= 32 * i {
        assert c / 32 == i && c % 32 == c - 32 * i;
      }
    }
  }
}
