/** Reading files: `ext2_fs_read` and `ext2_fs_bread_n_rec` of `kernel/filesystem/ext2.c`. */
module Ext2Read {
  import opened Ext2Spec

  class Reader {
    const d: Disk
    // *target_pos, a 32-bit cursor at a block boundary, and what was written through *buffer
    var target: nat
    var out: seq<byte>

    constructor (d: Disk)
      ensures this.d == d && target == 0 && out == []
    {
      this.d, target, out := d, 0, [];
    }

    /** The blocks `v`, from block `s` on, have been read. */
    ghost predicate At(s: nat, v: seq<nat>, ppos: nat, count: nat)
      reads this
    {
      && DiskOk(d) && s * d.bs <= ppos < s * d.bs + d.bs && ppos + count + d.bs <= U32
      && target == (s + |v|) * d.bs && target < ppos + count + d.bs
      && out == Copied(d, v, ppos - s * d.bs, ppos + count - s * d.bs)
    }

    /** `ext2_fs_bread_n_rec`: the next blocks, from left to right, below a tree of `level` levels
        with root `b`, until the tree or the range ends. */
    method BReadNRec(b: nat, ppos: nat, count: nat, level: nat, ghost s: nat, ghost v0: seq<nat>) returns (ghost k: nat)
      requires DiskOk(d) && At(s, v0, ppos, count) && target < ppos + count
      modifies this
      ensures 0 < k <= |Leaves(d, b, level)| && At(s, v0 + Leaves(d, b, level)[..k], ppos, count)
      ensures k < |Leaves(d, b, level)| ==> target >= ppos + count
      decreases level, 0
    {
      hide At, Leaves, LeavesBelow, Power;
      LeavesCount(d, b, level);
      if level > 0 {
        k := 0;
        ghost var v := v0;
        NothingBelow(d, b, level, v0);
        var i := 0;
        while target < ppos + count && i < d.bs / 4
          invariant i <= N(d) && k <= |LeavesBelow(d, b, level, i)| && (i > 0 ==> k > 0)
          invariant v == v0 + LeavesBelow(d, b, level, i)[..k] && At(s, v, ppos, count)
          invariant target < ppos + count ==> k == |LeavesBelow(d, b, level, i)|
          invariant i == 0 ==> target < ppos + count
          decreases N(d) - i
        {
          ghost var v1 := v;
          ghost var k1 := BReadNRec(Pointer(d, b, i), ppos, count, level - 1, s, v);
          NextBelow(d, b, level, i, v0, k1);
          k, v := k + k1, v + Leaves(d, Pointer(d, b, i), level - 1)[..k1];
          i := i + 1;
        }
        FirstBelow(d, b, level, i, k);
      } else {
        k := 1;
        OneLeaf(d, b, v0);
        ReadLeaf(b, ppos, count, s, v0);
      }
    }

    /** The copying of one block. */
    method ReadLeaf(b: nat, ppos: nat, count: nat, ghost s: nat, ghost v0: seq<nat>)
      requires DiskOk(d) && At(s, v0, ppos, count) && target < ppos + count
      modifies this
      ensures At(s, v0 + Leaves(d, b, 0)[..1], ppos, count)
    {
      hide Copied, Bytes, Leaves, DiskOk;
      LeafStep(d, s, v0, ppos, count, target, b);
      var block := d.blocks(b);
      var start := if ppos > target then ppos - target else 0;
      var next := (target + d.bs) % U32;
      var end := if ppos + count < next then next - ppos - count else 0;
      OneLeaf(d, b, v0);
      out := out + block[start..d.bs - end];
      target := next;
    }

    /** `ext2_fs_read`.  Whatever the start, what is copied are the bytes in range of the blocks that
        are visited; from a good start these are the bytes of the file.  Domain: the read starts
        inside a file that ends a block below 4 GiB, and the 32-bit cut of the count is right. */
    method Read(ino: Inode, count0: nat, ppos: nat) returns (count: nat)
      requires DiskOk(d) && InodeOk(ino) && out == []
      requires ppos <= ino.size && ino.size + d.bs <= U32 && count0 < U32
      requires ppos + count0 < U32 || ppos + count0 - U32 >= ino.size
      modifies this
      ensures count == Min(ppos + count0, ino.size) - ppos && |out| == count
      ensures out == CodeRead(d, ino, ppos, count)
      ensures GoodStart(d.bs, BlockNo(d.bs, ppos)) ==>
              ppos + count <= |Flat(d, ino)| &&
              out == Flat(d, ino)[ppos..ppos + count]
    {
      hide CodeRead, Flat, GoodStart, DiskOk, FileLeaves, At, Clip, BlockNo;
      BlockSize(d);
      ClipExact(ppos, count0, ino.size);
      count := Clip(ppos, count0, ino.size);
      ReadRange(ino, ppos, count);
      if GoodStart(d.bs, BlockNo(d.bs, ppos)) {
        CodeReadRight(d, ino, ppos, count);
      }
    }

    /** The loop of `ext2_fs_read`. */
    method ReadRange(ino: Inode, ppos: nat, count: nat)
      requires DiskOk(d) && InodeOk(ino) && out == [] && ppos + count + d.bs <= U32
      modifies this
      ensures out == CodeRead(d, ino, ppos, count) && |out| == count
    {
      hide At, Leaves, LeavesBelow, Power, Whole, Visited, CodeRead, Tree, Level, DiskOk, BlockNo;
      BlockSize(d);
      BlockOf(d, ppos);
      target := ((ppos / d.bs) * d.bs) % U32;
      ghost var s, v := BlockNo(d.bs, ppos), [];
      WholeStart(d, ino, s);
      AtStart(s, ppos, count);
      while target < ppos + count
        invariant At(s, v, ppos, count)
        invariant v == Visited(d, ino, s, |v|)
        invariant target < ppos + count ==> Whole(d, ino, s, v)
        decreases U32 - |v|
      {
        ghost var k := ReadTree(ino, ppos, count, s, v);
        WholeMore(d, ino, s, v, k);
        v := v + Leaves(d, Tree(ino, s + |v|), Level(s + |v|))[..k];
      }
      Finished(s, v, ppos, count);
      ReadDone(d, ino, v, ppos, count);
    }

    /** One turn of the loop of `ext2_fs_read`: the tree for the block at the cursor, from its first
        leaf. */
    method ReadTree(ino: Inode, ppos: nat, count: nat, ghost s: nat, ghost v: seq<nat>) returns (ghost k: nat)
      requires DiskOk(d) && InodeOk(ino) && At(s, v, ppos, count) && target < ppos + count
      modifies this
      ensures var leaves := Leaves(d, Tree(ino, s + |v|), Level(s + |v|));
              && 0 < k <= |leaves| && At(s, v + leaves[..k], ppos, count)
              && (k < |leaves| ==> target >= ppos + count)
      ensures |v| < U32
    {
      hide At, Leaves, LeavesBelow, Power;
      NextBlock(s, v, ppos, count, ino);
      var block := target / d.bs;
      k := 0;
      if block < LEVEL0 {
        k := BReadNRec(ino.block[block], ppos, count, 0, s, v);
      } else if block < LEVEL1 {
        k := BReadNRec(ino.block[12], ppos, count, 1, s, v);
      } else if block < LEVEL2 {
        k := BReadNRec(ino.block[13], ppos, count, 2, s, v);
      } else if block < LEVEL3 {
        k := BReadNRec(ino.block[14], ppos, count, 3, s, v);
      }
    }

    lemma AtStart(s: nat, ppos: nat, count: nat)
      requires DiskOk(d) && s * d.bs <= ppos < s * d.bs + d.bs && ppos + count + d.bs <= U32 && target == s * d.bs &&
               out == []
      ensures At(s, [], ppos, count)
    {
    }

    lemma NextBlock(s: nat, v: seq<nat>, ppos: nat, count: nat, ino: Inode)
      requires InodeOk(ino) && At(s, v, ppos, count) && target < ppos + count
      ensures target / d.bs == s + |v| && s + |v| < LEVEL3 < U32
    {
      BlockAt(d, s + |v|);
    }

    lemma Finished(s: nat, v: seq<nat>, ppos: nat, count: nat)
      requires At(s, v, ppos, count) && target >= ppos + count
      ensures ppos + count <= (s + |v|) * d.bs < ppos + count + d.bs && s * d.bs <= ppos < s * d.bs + d.bs
      ensures out == Copied(d, v, ppos - s * d.bs, ppos + count - s * d.bs)
    {
    }
  }
}
