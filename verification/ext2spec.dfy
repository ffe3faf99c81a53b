/** Files and their blocks in `kernel/filesystem/ext2.c`: direct blocks and indirection trees. */
module Ext2Spec {
  type byte = n: nat | n < 256

  // a device, block by block
  datatype Disk = Disk(bs: nat, blocks: nat -> seq<byte>)
  // i_size and i_block
  datatype Inode = Inode(size: nat, block: seq<nat>)

  const LEVEL0: nat := 12
  const LEVEL1: nat := 268
  const LEVEL2: nat := 65804
  const LEVEL3: nat := 16843020
  const U32: nat := 0x1_0000_0000

  ghost predicate DiskOk(d: Disk) {
    && (d.bs == 1024 || d.bs == 2048 || d.bs == 4096)
    && forall b :: |d.blocks(b)| == d.bs
  }

  predicate InodeOk(ino: Inode) {
    |ino.block| == 15
  }

  /** The pointers in a block of pointers. */
  function N(d: Disk): nat { d.bs / 4 }

  /** The `i`-th little-endian word of a block. */
  function Pointer(d: Disk, b: nat, i: nat): nat
    requires |d.blocks(b)| == d.bs && i < N(d)
  {
    var p := d.blocks(b);
    p[4 * i] as nat + 0x100 * p[4 * i + 1] as nat + 0x1_0000 * p[4 * i + 2] as nat + 0x100_0000 * p[4 * i + 3] as nat
  }

  /** The lowest `k` bytes of a number as they stand on the device: the low one first. */
  function Encoded(n: nat, k: nat): (s: seq<byte>)
    ensures |s| == k
  {
    if k == 0 then [] else [n % 256] + Encoded(n / 256, k - 1)
  }

  lemma EncodedTwo(n: nat)
    requires n < 0x1_0000
    ensures Encoded(n, 2) == [n % 256, n / 256]
  {
    assert Encoded(n / 256 / 256, 0) == [];
    assert Encoded(n / 256, 1) == [n / 256 % 256] + Encoded(n / 256 / 256, 0);
  }

  lemma EncodedFour(n: nat)
    requires n < U32
    ensures Encoded(n, 4) == [n % 256, n / 256 % 256, n / 65536 % 256, n / 16777216]
  {
    var a, b, c := n / 256, n / 65536, n / 16777216;
    assert a / 256 == b && b / 256 == c && c < 256;
    assert Encoded(c / 256, 0) == [];
    assert Encoded(c, 1) == [c] + Encoded(c / 256, 0);
    assert Encoded(b, 2) == [b % 256] + Encoded(c, 1);
    assert Encoded(a, 3) == [a % 256] + Encoded(b, 2);
    assert Encoded(n, 4) == [n % 256] + Encoded(a, 3);
  }

  lemma WordSum(n: nat)
    requires n < U32
    ensures n % 256 + 0x100 * (n / 256 % 256) + 0x1_0000 * (n / 65536 % 256) + 0x100_0000 * (n / 16777216) == n
  {
    var a, b, c := n / 256, n / 65536, n / 16777216;
    assert n == n % 256 + 256 * a;
    assert a == a % 256 + 256 * b && b == b % 256 + 256 * c;
  }

  /** A pointer is the number whose bytes stand in its place. */
  lemma PointerIs(d: Disk, b: nat, i: nat, n: nat)
    requires |d.blocks(b)| == d.bs && i < N(d) && n < U32 && d.blocks(b)[4 * i..4 * i + 4] == Encoded(n, 4)
    ensures Pointer(d, b, i) == n
  {
    var w, p := Encoded(n, 4), d.blocks(b);
    EncodedFour(n);
    WordSum(n);
    assert p[4 * i..4 * i + 4] == w;
    assert p[4 * i] == w[0] && p[4 * i + 1] == w[1] && p[4 * i + 2] == w[2] && p[4 * i + 3] == w[3];
  }

  function Power(n: nat, k: nat): nat {
    if k == 0 then 1 else n * Power(n, k - 1)
  }

  /** The data blocks below block `b` of an indirection tree of `level` levels, from left to right,
      and those below its first `i` pointers. */
  ghost function Leaves(d: Disk, b: nat, level: nat): seq<nat>
    requires DiskOk(d)
    decreases level, N(d) + 1
  {
    if level == 0 then [b] else LeavesBelow(d, b, level, N(d))
  }

  ghost function LeavesBelow(d: Disk, b: nat, level: nat, i: nat): seq<nat>
    requires DiskOk(d) && level > 0 && i <= N(d)
    decreases level, i
  {
    if i == 0 then [] else LeavesBelow(d, b, level, i - 1) + Leaves(d, Pointer(d, b, i - 1), level - 1)
  }

  lemma {:induction false} LeavesCount(d: Disk, b: nat, level: nat)
    requires DiskOk(d)
    ensures |Leaves(d, b, level)| == Power(N(d), level) > 0
    decreases level, N(d) + 1
  {
    if level > 0 {
      BelowCount(d, b, level, N(d));
      assert Power(N(d), level - 1) > 0 by { LeavesCount(d, b, level - 1); }
      PositiveProduct(N(d), Power(N(d), level - 1));
    }
  }

  lemma PositiveProduct(a: nat, b: nat)
    requires a > 0 && b > 0
    ensures a * b > 0
  {
  }

  lemma {:induction false} BelowCount(d: Disk, b: nat, level: nat, i: nat)
    requires DiskOk(d) && level > 0 && i <= N(d)
    ensures |LeavesBelow(d, b, level, i)| == i * Power(N(d), level - 1)
    decreases level, i
  {
    if i > 0 {
      BelowCount(d, b, level, i - 1);
      LeavesCount(d, Pointer(d, b, i - 1), level - 1);
      OneTimeMore(i, Power(N(d), level - 1));
    }
  }

  lemma OneTimeMore(i: nat, x: nat)
    requires i > 0
    ensures i * x == (i - 1) * x + x
  {
  }

  /** What is below the first `i` pointers comes first. */
  lemma {:induction false} BelowFirst(d: Disk, b: nat, level: nat, i: nat, n: nat)
    requires DiskOk(d) && level > 0 && i <= n <= N(d)
    ensures LeavesBelow(d, b, level, i) <= LeavesBelow(d, b, level, n)
    decreases n - i
  {
    if i < n {
      BelowFirst(d, b, level, i, n - 1);
    }
  }

  /** Every data block of a file, in file order. */
  ghost function FileLeaves(d: Disk, ino: Inode): seq<nat>
    requires DiskOk(d) && InodeOk(ino)
  {
    ino.block[..12] + Leaves(d, ino.block[12], 1) + Leaves(d, ino.block[13], 2) + Leaves(d, ino.block[14], 3)
  }

  /** The contents of data blocks one after the other. */
  ghost function Bytes(d: Disk, leaves: seq<nat>): (s: seq<byte>)
    requires DiskOk(d)
    ensures |s| == |leaves| * d.bs
  {
    if leaves == [] then []
    else
      assert |leaves| * d.bs == (|leaves| - 1) * d.bs + d.bs;
      Bytes(d, leaves[..|leaves| - 1]) + d.blocks(leaves[|leaves| - 1])
  }

  lemma {:induction false} BytesAppend(d: Disk, a: seq<nat>, b: seq<nat>)
    requires DiskOk(d)
    ensures Bytes(d, a + b) == Bytes(d, a) + Bytes(d, b)
  {
    if b == [] {
      assert a + b == a;
    } else {
      assert (a + b)[..|a + b| - 1] == a + b[..|b| - 1];
      BytesAppend(d, a, b[..|b| - 1]);
    }
  }

  /** The tree that `ext2_fs_read` turns to for block number `block` of a file. */
  function Level(block: nat): nat {
    if block < LEVEL0 then 0 else if block < LEVEL1 then 1 else if block < LEVEL2 then 2 else 3
  }

  function Tree(ino: Inode, block: nat): nat
    requires InodeOk(ino)
  {
    if block < LEVEL0 then ino.block[block] else ino.block[11 + Level(block)]
  }

  /** The data blocks the loop of `ext2_fs_read` visits for `m` blocks from block `s` on: trees from
      their first leaf, one after the other. */
  ghost function Visited(d: Disk, ino: Inode, s: nat, m: nat): (v: seq<nat>)
    requires DiskOk(d) && InodeOk(ino)
    ensures |v| == m
    decreases m
  {
    var leaves := Leaves(d, Tree(ino, s), Level(s));
    if m == 0 then []
    else if |leaves| == 0 || m <= |leaves| then LeavesCount(d, Tree(ino, s), Level(s)); leaves[..m]
    else leaves + Visited(d, ino, s + |leaves|, m - |leaves|)
  }

  /** The block numbers at which the indirection trees start. */
  predicate GoodStart(bs: nat, s: nat) {
    s <= 12 || s == 12 + bs / 4 || s == 12 + bs / 4 + (bs / 4) * (bs / 4)
  }

  lemma Thresholds(d: Disk)
    requires DiskOk(d)
    ensures Level(12 + N(d)) == 2 && Level(12 + N(d) + N(d) * N(d)) == 3
    ensures Power(N(d), 1) == N(d) && Power(N(d), 2) == N(d) * N(d) && Power(N(d), 3) == N(d) * (N(d) * N(d))
  {
    assert Power(N(d), 0) == 1;
    assert Power(N(d), 1) == N(d);
    assert Power(N(d), 2) == N(d) * N(d);
    assert N(d) == 256 || N(d) == 512 || N(d) == 1024;
  }

  /** With blocks of 1024 bytes the thresholds are the ends of the trees: whatever block of the file
      is asked for, it is in the tree they choose, that far behind the tree's first one. */
  lemma ThresholdsAreTrees(d: Disk, ino: Inode, block: nat)
    requires DiskOk(d) && InodeOk(ino) && d.bs == 1024 && block < |FileLeaves(d, ino)|
    ensures |FileLeaves(d, ino)| == LEVEL3
    ensures var leaves := Leaves(d, Tree(ino, block), Level(block));
            var first := if block < 12 then block else if block < 268 then 12 else if block < 65804 then 268 else 65804;
            block - first < |leaves| && FileLeaves(d, ino)[block] == leaves[block - first]
  {
    hide LeavesBelow, Power;
    Thresholds(d);
    LeavesCount(d, ino.block[12], 1);
    LeavesCount(d, ino.block[13], 2);
    LeavesCount(d, ino.block[14], 3);
    assert block < 12 ==> Leaves(d, ino.block[block], 0) == [ino.block[block]];
  }

  lemma FileParts(file: seq<nat>, a: seq<nat>, b: seq<nat>, c: seq<nat>, e: seq<nat>)
    requires file == a + b + c + e
    ensures file[..|a|] == a && file[|a|..|a| + |b|] == b
    ensures file[|a| + |b|..|a| + |b| + |c|] == c && file[|a| + |b| + |c|..] == e
    ensures |file| == |a| + |b| + |c| + |e|
  {
  }

  /** A good start short of the end is where the tree that gets chosen starts in the file, and that
      tree ends at a good start or at the end of the file. */
  lemma TreeInFile(d: Disk, ino: Inode, s: nat)
    requires DiskOk(d) && InodeOk(ino) && GoodStart(d.bs, s) && s < |FileLeaves(d, ino)|
    ensures var leaves, file := Leaves(d, Tree(ino, s), Level(s)), FileLeaves(d, ino);
            && |leaves| > 0 && s + |leaves| <= |file| && file[s..s + |leaves|] == leaves
            && (GoodStart(d.bs, s + |leaves|) || s + |leaves| == |file|)
  {
    hide LeavesBelow, Leaves, Power;
    Thresholds(d);
    LeavesCount(d, ino.block[12], 1);
    LeavesCount(d, ino.block[13], 2);
    LeavesCount(d, ino.block[14], 3);
    FileParts(FileLeaves(d, ino), ino.block[..12], Leaves(d, ino.block[12], 1), Leaves(d, ino.block[13], 2),
              Leaves(d, ino.block[14], 3));
    LeavesCount(d, Tree(ino, s), Level(s));
    if s < 12 {
      DirectLeaf(d, ino, s);
      assert FileLeaves(d, ino)[s] == FileLeaves(d, ino)[..12][s];
    }
  }

  lemma DirectLeaf(d: Disk, ino: Inode, s: nat)
    requires DiskOk(d) && InodeOk(ino) && s < 12
    ensures Leaves(d, Tree(ino, s), Level(s)) == [ino.block[s]]
  {
  }

  /** From a good start the loop visits exactly the file's blocks, whatever the block size. */
  lemma {:induction false} VisitedRight(d: Disk, ino: Inode, s: nat, m: nat)
    requires DiskOk(d) && InodeOk(ino) && GoodStart(d.bs, s) && s + m <= |FileLeaves(d, ino)|
    ensures Visited(d, ino, s, m) == FileLeaves(d, ino)[s..s + m]
    decreases m
  {
    hide FileLeaves, Leaves, GoodStart, Tree, Level;
    if m > 0 {
      var file, leaves := FileLeaves(d, ino), Leaves(d, Tree(ino, s), Level(s));
      TreeInFile(d, ino, s);
      if m <= |leaves| {
        SlicePart(file, s, s + |leaves|, 0, m);
      } else {
        VisitedRight(d, ino, s + |leaves|, m - |leaves|);
        SliceJoin(file, s, s + |leaves|, s + m);
      }
    }
  }

  /** The whole file, from its first data block to its last. */
  ghost function Flat(d: Disk, ino: Inode): seq<byte>
    requires DiskOk(d) && InodeOk(ino)
  {
    Bytes(d, FileLeaves(d, ino))
  }

  /** `MIN_T(size_t, ppos + count, i_size) - ppos`, which cuts its first argument to 32 bits. */
  function Clip(ppos: nat, count: nat, size: nat): nat
    requires ppos < U32 && size < U32
  {
    var end := (ppos + count) % U32;
    ((if end < size then end else size) + U32 - ppos) % U32
  }

  function Min(a: nat, b: nat): nat { if a < b then a else b }

  /** What there is of `count` bytes from `ppos` on. */
  function There(ppos: nat, count: nat, size: nat): nat {
    if ppos < size then Min(ppos + count, size) - ppos else 0
  }

  /** The cut leaves what there is exactly if the position is not past the end and the end of the range
      fits in 32 bits or its low bits lie past the end of the file anyway. */
  lemma ClipExact(ppos: nat, count: nat, size: nat)
    requires ppos < U32 && size < U32 && count < U32
    ensures Clip(ppos, count, size) == There(ppos, count, size) <==>
            ppos <= size && (ppos + count < U32 || ppos + count - U32 >= size)
  {
  }

  /** Asking for all there is from byte 1 of a file of 10 bytes makes the count all but 2^32. */
  lemma ClipWrong()
    ensures Clip(1, U32 - 1, 10) == U32 - 1 && There(1, U32 - 1, 10) == 9
  {
  }

  /** A position past the end makes it all but 2^32 too. */
  lemma ClipPastEnd()
    ensures Clip(11, 5, 10) == U32 - 1 && There(11, 5, 10) == 0
  {
  }

  /** What has been copied once the blocks `v` have been visited, if reading goes from byte `lo` of
      the first to byte `hi`. */
  ghost function Copied(d: Disk, v: seq<nat>, lo: nat, hi: nat): seq<byte>
    requires DiskOk(d) && lo < d.bs && lo <= hi
  {
    if v == [] then [] else BlocksGrow(d, |v|); Bytes(d, v)[lo..Min(|v| * d.bs, hi)]
  }

  lemma BlocksGrow(d: Disk, m: nat)
    ensures m > 0 ==> m * d.bs == (m - 1) * d.bs + d.bs && m * d.bs >= d.bs
  {
    if m > 0 {
      assert (m - 1) * d.bs >= 0;
    }
  }

  /** The part of the block after `v` that falls in the range. */
  lemma CopiedMore(d: Disk, v: seq<nat>, b: nat, lo: nat, hi: nat)
    requires DiskOk(d) && lo < d.bs && lo <= hi && (v == [] || |v| * d.bs < hi)
    ensures var start := if v == [] then lo else 0;
            var end := if hi < (|v| + 1) * d.bs then hi - |v| * d.bs else d.bs;
            start <= end <= d.bs && Copied(d, v + [b], lo, hi) == Copied(d, v, lo, hi) + d.blocks(b)[start..end]
  {
    hide Bytes;
    BlocksGrow(d, |v| + 1);
    BlocksGrow(d, |v|);
    BytesAppend(d, v, [b]);
    OneBlock(d, b);
    if v == [] {
      assert v + [b] == [b];
    } else {
      var end := if hi < (|v| + 1) * d.bs then hi - |v| * d.bs else d.bs;
      SliceAppend(Bytes(d, v), d.blocks(b), lo, end);
    }
  }

  lemma OneBlock(d: Disk, b: nat)
    requires DiskOk(d)
    ensures Bytes(d, [b]) == d.blocks(b)
  {
    assert [b][..0] == [];
  }

  lemma SliceAppend<T>(x: seq<T>, y: seq<T>, lo: nat, e: nat)
    requires lo <= |x| && e <= |y|
    ensures (x + y)[lo..|x| + e] == x[lo..|x|] + y[0..e]
  {
  }

  /** `v` is made up of whole trees: what comes next starts a tree. */
  ghost predicate Whole(d: Disk, ino: Inode, s: nat, v: seq<nat>)
    requires DiskOk(d) && InodeOk(ino)
  {
    forall m: nat :: WholeFor(d, ino, s, v, m)
  }

  ghost predicate WholeFor(d: Disk, ino: Inode, s: nat, v: seq<nat>, m: nat)
    requires DiskOk(d) && InodeOk(ino)
  {
    Visited(d, ino, s, |v| + m) == v + Visited(d, ino, s + |v|, m)
  }

  lemma WholeStart(d: Disk, ino: Inode, s: nat)
    requires DiskOk(d) && InodeOk(ino)
    ensures Whole(d, ino, s, [])
  {
  }

  /** The first `k` blocks from `s` on are the first leaves of the tree there, and behind its last
      leaf the loop goes on. */
  lemma TreeVisited(d: Disk, ino: Inode, s: nat, k: nat, m: nat)
    requires DiskOk(d) && InodeOk(ino)
    ensures var leaves := Leaves(d, Tree(ino, s), Level(s));
            && (k <= |leaves| ==> Visited(d, ino, s, k) == leaves[..k])
            && Visited(d, ino, s, |leaves| + m) == leaves + Visited(d, ino, s + |leaves|, m)
  {
    hide Leaves, Tree, Level;
    LeavesCount(d, Tree(ino, s), Level(s));
  }

  lemma WholeMore(d: Disk, ino: Inode, s: nat, v: seq<nat>, k: nat)
    requires DiskOk(d) && InodeOk(ino) && Whole(d, ino, s, v) && k <= |Leaves(d, Tree(ino, s + |v|), Level(s + |v|))|
    ensures var leaves := Leaves(d, Tree(ino, s + |v|), Level(s + |v|));
            && v + leaves[..k] == Visited(d, ino, s, |v| + k)
            && (k == |leaves| ==> Whole(d, ino, s, v + leaves[..k]))
  {
    hide Leaves, Tree, Level, Visited;
    var leaves := Leaves(d, Tree(ino, s + |v|), Level(s + |v|));
    TreeVisited(d, ino, s + |v|, k, 0);
    assert WholeFor(d, ino, s, v, k);
    if k == |leaves| {
      assert leaves[..k] == leaves;
      forall m: nat
        ensures WholeFor(d, ino, s, v + leaves, m)
      {
        assert WholeFor(d, ino, s, v, |leaves| + m);
        TreeVisited(d, ino, s + |v|, k, m);
        JoinTwice(v, leaves, Visited(d, ino, s + |v| + |leaves|, m));
      }
    }
  }

  lemma JoinTwice<T>(a: seq<T>, b: seq<T>, c: seq<T>)
    ensures a + (b + c) == a + b + c
  {
  }

  lemma BytesSlice(d: Disk, x: seq<nat>, a: nat, b: nat)
    requires DiskOk(d) && a <= b <= |x|
    ensures a * d.bs <= b * d.bs <= |x| * d.bs && Bytes(d, x[a..b]) == Bytes(d, x)[a * d.bs..b * d.bs]
  {
    assert x == x[..a] + x[a..b] + x[b..];
    BytesAppend(d, x[..a], x[a..b]);
    BytesAppend(d, x[..a] + x[a..b], x[b..]);
    assert (b - a) * d.bs == b * d.bs - a * d.bs;
    assert (|x| - b) * d.bs == |x| * d.bs - b * d.bs;
  }

  /** Reading whole blocks from a good start and cutting them gives a part of the file. */
  lemma ReadIsSlice(d: Disk, ino: Inode, s: nat, m: nat, ppos: nat, end: nat)
    requires DiskOk(d) && InodeOk(ino) && GoodStart(d.bs, s) && s * d.bs <= ppos < (s + 1) * d.bs && ppos <= end < U32
    requires end <= (s + m) * d.bs < end + d.bs
    ensures end <= |Flat(d, ino)| && |Visited(d, ino, s, m)| * d.bs == m * d.bs &&
            0 <= ppos - s * d.bs <= end - s * d.bs <= m * d.bs
    ensures Bytes(d, Visited(d, ino, s, m))[ppos - s * d.bs..end - s * d.bs] == Flat(d, ino)[ppos..end]
  {
    hide Leaves, LeavesBelow, Visited, Bytes, FileLeaves, GoodStart, Power;
    FileLong(d, ino, s + m, end);
    VisitedRight(d, ino, s, m);
    BytesSlice(d, FileLeaves(d, ino), s, s + m);
    assert (s + m) * d.bs == s * d.bs + m * d.bs;
    SlicePart(Flat(d, ino), s * d.bs, (s + m) * d.bs, ppos - s * d.bs, end - s * d.bs);
  }

  lemma SlicePart<T>(x: seq<T>, a: nat, b: nat, i: nat, j: nat)
    requires a <= b <= |x| && i <= j <= b - a
    ensures x[a..b][i..j] == x[a + i..a + j]
  {
    forall k | 0 <= k < j - i
      ensures x[a..b][i..j][k] == x[a + i..a + j][k]
    {
      assert x[a..b][i + k] == x[a + (i + k)];
    }
  }

  lemma SliceJoin<T>(x: seq<T>, a: nat, b: nat, c: nat)
    requires a <= b <= c <= |x|
    ensures x[a..c] == x[a..b] + x[b..c]
  {
  }

  /** No file of less than 4 GiB runs out of indirection trees. */
  lemma FileLong(d: Disk, ino: Inode, blocks: nat, end: nat)
    requires DiskOk(d) && InodeOk(ino) && blocks * d.bs < end + d.bs && end < U32
    ensures blocks <= |FileLeaves(d, ino)| && blocks < LEVEL3
  {
    hide Leaves, LeavesBelow, Power;
    Thresholds(d);
    LeavesCount(d, ino.block[12], 1);
    LeavesCount(d, ino.block[13], 2);
    LeavesCount(d, ino.block[14], 3);
    assert blocks * 1024 <= blocks * d.bs;
    assert N(d) == 256 || N(d) == 512 || N(d) == 1024;
  }

  lemma NothingBelow(d: Disk, b: nat, level: nat, v0: seq<nat>)
    requires DiskOk(d) && level > 0
    ensures LeavesBelow(d, b, level, 0) == [] && v0 == v0 + LeavesBelow(d, b, level, 0)[..0]
  {
  }

  lemma NextBelow(d: Disk, b: nat, level: nat, i: nat, v0: seq<nat>, k: nat)
    requires DiskOk(d) && level > 0 && i < N(d) && k <= |Leaves(d, Pointer(d, b, i), level - 1)|
    ensures var below, child, more := LeavesBelow(d, b, level, i), Leaves(d, Pointer(d, b, i), level - 1),
            LeavesBelow(d, b, level, i + 1);
            && |more| == |below| + |child|
            && v0 + below[..|below|] + child[..k] == v0 + more[..|below| + k]
  {
    hide Leaves, LeavesBelow;
    var below, child := LeavesBelow(d, b, level, i), Leaves(d, Pointer(d, b, i), level - 1);
    MoreBelow(d, b, level, i);
    assert (below + child)[..|below| + k] == below + child[..k];
  }

  lemma MoreBelow(d: Disk, b: nat, level: nat, i: nat)
    requires DiskOk(d) && level > 0 && i < N(d)
    ensures LeavesBelow(d, b, level, i + 1) == LeavesBelow(d, b, level, i) + Leaves(d, Pointer(d, b, i), level - 1)
  {
  }

  lemma FirstBelow(d: Disk, b: nat, level: nat, i: nat, k: nat)
    requires DiskOk(d) && level > 0 && i <= N(d) && k <= |LeavesBelow(d, b, level, i)|
    ensures k <= |Leaves(d, b, level)| && LeavesBelow(d, b, level, i)[..k] == Leaves(d, b, level)[..k]
    ensures i == N(d) ==> |LeavesBelow(d, b, level, i)| == |Leaves(d, b, level)|
  {
    BelowFirst(d, b, level, i, N(d));
  }

  /** Positions in bytes and in blocks, for the block after `m` from block `s` on. */
  lemma StepSizes(d: Disk, s: nat, m: nat, ppos: nat, count: nat)
    requires DiskOk(d) && s * d.bs <= ppos < s * d.bs + d.bs
    ensures (s + m) * d.bs == s * d.bs + m * d.bs && (s + (m + 1)) * d.bs == (s + m) * d.bs + d.bs
    ensures (m + 1) * d.bs == m * d.bs + d.bs && (m > 0 ==> m * d.bs >= d.bs)
  {
    BlocksGrow(d, m);
  }

  lemma BlockSize(d: Disk)
    requires DiskOk(d)
    ensures d.bs >= 1024
  {
  }

  /** The number of the block that byte `p` is in. */
  function BlockNo(bs: nat, p: nat): nat {
    if bs == 0 then 0 else p / bs
  }

  lemma BlockOf(d: Disk, p: nat)
    requires DiskOk(d) && p < U32
    ensures d.bs > 0 && BlockNo(d.bs, p) * d.bs <= p < BlockNo(d.bs, p) * d.bs + d.bs
    ensures ((p / d.bs) * d.bs) % U32 == BlockNo(d.bs, p) * d.bs
  {
  }

  lemma BlockAt(d: Disk, b: nat)
    requires DiskOk(d)
    ensures (b * d.bs) / d.bs == b && (b * d.bs < U32 ==> b < LEVEL3)
  {
    assert b * d.bs < U32 ==> b * 1024 < U32;
  }

  function DivUp(x: nat, y: nat): nat
    requires y > 0
  {
    (x + y - 1) / y
  }

  lemma DivUpRange(x: nat, y: nat)
    requires y > 0
    ensures x <= DivUp(x, y) * y < x + y
  {
    var q := (x + y - 1) / y;
    assert x + y - 1 == q * y + (x + y - 1) % y;
  }

  lemma DivUpIs(x: nat, y: nat, m: nat)
    requires y > 0 && x <= m * y < x + y
    ensures DivUp(x, y) == m
  {
    var q := DivUp(x, y);
    DivUpRange(x, y);
    if m > q {
      MultStep(q, m, y);
    } else if m < q {
      MultStep(m, q, y);
    }
  }

  lemma MultStep(a: nat, b: nat, y: nat)
    requires a < b
    ensures a * y + y <= b * y
  {
    var r: nat := b - a - 1;
    assert b * y == a * y + y + r * y;
  }

  lemma OneLeaf(d: Disk, b: nat, v: seq<nat>)
    requires DiskOk(d)
    ensures Leaves(d, b, 0) == [b] && v + Leaves(d, b, 0)[..1] == v + [b]
  {
  }

  /** The offsets `ext2_fs_bread_n_rec` computes for the block after `v`, and what it copies. */
  lemma LeafStep(d: Disk, s: nat, v: seq<nat>, ppos: nat, count: nat, target: nat, b: nat)
    requires DiskOk(d) && s * d.bs <= ppos < s * d.bs + d.bs && target == (s + |v|) * d.bs < ppos + count &&
             ppos + count + d.bs <= U32
    ensures var start := if ppos > target then ppos - target else 0;
            var next := (target + d.bs) % U32;
            var end := if ppos + count < next then next - ppos - count else 0;
            && next == target + d.bs == (s + |v + [b]|) * d.bs && end <= d.bs && start <= d.bs - end &&
               |d.blocks(b)| == d.bs
            && Copied(d, v + [b], ppos - s * d.bs, ppos + count - s * d.bs)
               == Copied(d, v, ppos - s * d.bs, ppos + count - s * d.bs) + d.blocks(b)[start..d.bs - end]
  {
    hide Copied, Bytes;
    StepSizes(d, s, |v|, ppos, count);
    CopiedMore(d, v, b, ppos - s * d.bs, ppos + count - s * d.bs);
  }

  /** What `ext2_fs_read` copies for `count` bytes from `ppos` on. */
  ghost function CodeRead(d: Disk, ino: Inode, ppos: nat, count: nat): seq<byte>
    requires DiskOk(d) && InodeOk(ino) && ppos < U32
  {
    var s := BlockNo(d.bs, ppos);
    BlockOf(d, ppos);
    var m := DivUp(ppos + count - s * d.bs, d.bs);
    DivUpRange(ppos + count - s * d.bs, d.bs);
    Bytes(d, Visited(d, ino, s, m))[ppos - s * d.bs..ppos + count - s * d.bs]
  }

  lemma CopiedAll(d: Disk, v: seq<nat>, lo: nat, hi: nat)
    requires DiskOk(d) && lo < d.bs && lo <= hi <= |v| * d.bs
    ensures Copied(d, v, lo, hi) == Bytes(d, v)[lo..hi] && |Copied(d, v, lo, hi)| == hi - lo
  {
  }

  /** Once the blocks of the range are visited, what was copied is what `CodeRead` says. */
  lemma ReadDone(d: Disk, ino: Inode, v: seq<nat>, ppos: nat, count: nat)
    requires DiskOk(d) && InodeOk(ino) && ppos + count + d.bs <= U32
    requires var s := BlockNo(d.bs, ppos);
             v == Visited(d, ino, s, |v|) &&
             ppos + count <= (s + |v|) * d.bs < ppos + count + d.bs
    ensures var s := BlockNo(d.bs, ppos); s * d.bs <= ppos < s * d.bs + d.bs
    ensures Copied(d, v, ppos - BlockNo(d.bs, ppos) * d.bs, ppos + count - BlockNo(d.bs, ppos) * d.bs)
            == CodeRead(d, ino, ppos, count)
    ensures |CodeRead(d, ino, ppos, count)| == count
  {
    hide Visited, Bytes, DivUp, DiskOk, InodeOk, BlockNo, Copied;
    var s := BlockNo(d.bs, ppos);
    BlockOf(d, ppos);
    StepSizes(d, s, |v|, ppos, count);
    DivUpIs(ppos + count - s * d.bs, d.bs, |v|);
    CopiedAll(d, v, ppos - s * d.bs, ppos + count - s * d.bs);
  }

  /** From a good start, reading is a slice of the file. */
  lemma CodeReadRight(d: Disk, ino: Inode, ppos: nat, count: nat)
    requires DiskOk(d) && InodeOk(ino) && ppos + count + d.bs <= U32 && GoodStart(d.bs, BlockNo(d.bs, ppos))
    ensures ppos + count <= |Flat(d, ino)| && CodeRead(d, ino, ppos, count) == Flat(d, ino)[ppos..ppos + count]
  {
    hide Visited, Flat, GoodStart;
    var s := BlockNo(d.bs, ppos);
    BlockOf(d, ppos);
    var m := DivUp(ppos + count - s * d.bs, d.bs);
    DivUpRange(ppos + count - s * d.bs, d.bs);
    StepSizes(d, s, m, ppos, count);
    ReadIsSlice(d, ino, s, m, ppos, ppos + count);
  }

  lemma SliceAt<T>(x: seq<T>, y: seq<T>, a: nat, b: nat, r: nat)
    requires a <= b <= |x| && x[a..b] == y && r < |y|
    ensures a + r < |x| && x[a + r] == y[r]
  {
  }

  lemma ByteAt(d: Disk, x: seq<nat>, k: nat, r: nat)
    requires DiskOk(d) && k < |x| && r < d.bs
    ensures k * d.bs + r < |x| * d.bs && Bytes(d, x)[k * d.bs + r] == d.blocks(x[k])[r]
  {
    hide Bytes, DiskOk;
    BytesSlice(d, x, k, k + 1);
    assert x[k..k + 1] == [x[k]];
    OneBlock(d, x[k]);
    BlockSize(d);
    MultStep(k, k + 1, d.bs);
    SliceAt(Bytes(d, x), d.blocks(x[k]), k * d.bs, (k + 1) * d.bs, r);
  }

  /** A device whose blocks hold zeros, but for block 10, which holds ones, and blocks 11 to 13, whose
      first pointer goes to the block before. */
  function Decoy(bs: nat): Disk {
    Disk(bs, b => seq(bs, i => if b == 10 then 1 else if 11 <= b <= 13 && i == 0 then b - 1 else 0))
  }

  /** A file with all blocks zero but the root of its tree of level `l`. */
  function DecoyInode(l: nat, size: nat): Inode {
    Inode(size, seq(15, k => if k == 11 + l then 10 + l else 0))
  }

  lemma DecoyPointers(bs: nat, b: nat, i: nat)
    requires DiskOk(Decoy(bs)) && i < N(Decoy(bs)) && (b == 0 || 11 <= b <= 13)
    ensures |Decoy(bs).blocks(b)| == Decoy(bs).bs && Pointer(Decoy(bs), b, i) == if b > 0 && i == 0 then b - 1 else 0
  {
  }

  /** Only the first leaf below block `10 + level` is block 10. */
  lemma {:induction false} DecoyLeaves(bs: nat, b: nat, level: nat)
    requires DiskOk(Decoy(bs)) && level <= 3 && (b == 0 || b == 10 + level)
    ensures |Leaves(Decoy(bs), b, level)| > 0
    ensures forall k :: 0 <= k < |Leaves(Decoy(bs), b, level)| ==>
              Leaves(Decoy(bs), b, level)[k] == if b > 0 && k == 0 then 10 else 0
    decreases level, bs
  {
    LeavesCount(Decoy(bs), b, level);
    if level > 0 {
      DecoyBelow(bs, b, level, N(Decoy(bs)));
    }
  }

  lemma {:induction false} DecoyBelow(bs: nat, b: nat, level: nat, i: nat)
    requires DiskOk(Decoy(bs)) && 0 < level <= 3 && (b == 0 || b == 10 + level) && i <= N(Decoy(bs))
    ensures forall k :: 0 <= k < |LeavesBelow(Decoy(bs), b, level, i)| ==>
            LeavesBelow(Decoy(bs), b, level, i)[k] == if b > 0 && k == 0 then 10 else 0
    ensures i > 0 ==> |LeavesBelow(Decoy(bs), b, level, i)| > 0
    decreases level, i
  {
    hide Pointer, Decoy, Leaves, DiskOk;
    if i > 0 {
      DecoyBelow(bs, b, level, i - 1);
      DecoyPointers(bs, b, i - 1);
      DecoyLeaves(bs, Pointer(Decoy(bs), b, i - 1), level - 1);
    }
  }

  /** Where in a file the tree of level `l` starts. */
  function TreeStart(bs: nat, l: nat): nat {
    if l == 1 then 12 else if l == 2 then 12 + bs / 4 else 12 + bs / 4 + (bs / 4) * (bs / 4)
  }

  lemma DecoyFile(bs: nat, l: nat, size: nat, s: nat)
    requires DiskOk(Decoy(bs)) && 0 < l <= 3 && s != TreeStart(bs, l)
    requires s < |FileLeaves(Decoy(bs), DecoyInode(l, size))|
    ensures FileLeaves(Decoy(bs), DecoyInode(l, size))[s] == 0
  {
    hide Leaves, LeavesBelow, Power, Decoy;
    var d, ino := Decoy(bs), DecoyInode(l, size);
    DecoySize(bs);
    Thresholds(d);
    LeavesCount(d, ino.block[12], 1);
    LeavesCount(d, ino.block[13], 2);
    LeavesCount(d, ino.block[14], 3);
    DecoyLeaves(bs, ino.block[12], 1);
    DecoyLeaves(bs, ino.block[13], 2);
    DecoyLeaves(bs, ino.block[14], 3);
    var a, b, c, e := ino.block[..12], Leaves(d, ino.block[12], 1), Leaves(d, ino.block[13], 2),
        Leaves(d, ino.block[14], 3);
    InPart(a, b, c, e, s);
  }

  lemma DecoySize(bs: nat)
    ensures Decoy(bs).bs == bs
  {
  }

  lemma InPart(a: seq<nat>, b: seq<nat>, c: seq<nat>, e: seq<nat>, s: nat)
    requires s < |a + b + c + e|
    ensures (a + b + c + e)[s] == if s < |a| then a[s] else if s < |a| + |b| then b[s - |a|]
                                  else if s < |a| + |b| + |c| then c[s - |a| - |b|] else e[s - |a| - |b| - |c|]
  {
  }

  /** `ext2_fs_read` copies the bytes of the file. */
  ghost predicate RightRead(d: Disk, ino: Inode, ppos: nat, count: nat)
    requires DiskOk(d) && InodeOk(ino) && ppos < U32
  {
    ppos + count <= |Flat(d, ino)| && CodeRead(d, ino, ppos, count) == Flat(d, ino)[ppos..ppos + count]
  }

  lemma FirstVisited(d: Disk, ino: Inode, s: nat, m: nat)
    requires DiskOk(d) && InodeOk(ino) && m > 0
    ensures |Leaves(d, Tree(ino, s), Level(s))| > 0 && Visited(d, ino, s, m)[0] == Leaves(d, Tree(ino, s), Level(s))[0]
  {
    hide Leaves, Tree, Level;
    LeavesCount(d, Tree(ino, s), Level(s));
  }

  lemma CodeReadFirst(d: Disk, ino: Inode, ppos: nat, count: nat)
    requires DiskOk(d) && InodeOk(ino) && count > 0 && ppos + count + d.bs <= U32
    ensures var s := BlockNo(d.bs, ppos);
            var leaves := Leaves(d, Tree(ino, s), Level(s));
            && 0 <= ppos - s * d.bs < d.bs && |leaves| > 0 && |CodeRead(d, ino, ppos, count)| > 0 &&
               |d.blocks(leaves[0])| == d.bs
            && CodeRead(d, ino, ppos, count)[0] == d.blocks(leaves[0])[ppos - s * d.bs]
  {
    hide Leaves, Bytes, BlockNo, DivUp, Visited, Tree, Level;
    var s := BlockNo(d.bs, ppos);
    BlockOf(d, ppos);
    var m := DivUp(ppos + count - s * d.bs, d.bs);
    DivUpRange(ppos + count - s * d.bs, d.bs);
    FirstVisited(d, ino, s, m);
    ByteAt(d, Visited(d, ino, s, m), 0, ppos - s * d.bs);
  }

  lemma DecoyCode(bs: nat, ppos: nat, count: nat)
    requires DiskOk(Decoy(bs)) && count > 0 && ppos + count + bs <= U32 && BlockNo(bs, ppos) >= 12
    ensures var code := CodeRead(Decoy(bs), DecoyInode(Level(BlockNo(bs, ppos)), ppos + count), ppos, count);
            |code| > 0 && code[0] == 1
  {
    hide Leaves, Decoy, BlockNo, DiskOk, CodeRead;
    DecoySize(bs);
    var d, s := Decoy(bs), BlockNo(bs, ppos);
    var ino := DecoyInode(Level(s), ppos + count);
    CodeReadFirst(d, ino, ppos, count);
    DecoyLeaves(bs, Tree(ino, s), Level(s));
    DecoyBytes(bs, ppos - s * bs);
  }

  lemma DecoyFlat(bs: nat, ppos: nat, l: nat, size: nat)
    requires DiskOk(Decoy(bs)) && ppos < U32 && 0 < l <= 3 && BlockNo(bs, ppos) != TreeStart(bs, l)
    requires ppos < |Flat(Decoy(bs), DecoyInode(l, size))|
    ensures Flat(Decoy(bs), DecoyInode(l, size))[ppos] == 0
  {
    hide Leaves, LeavesBelow, Power, Decoy, Bytes, BlockNo, FileLeaves, DiskOk;
    DecoySize(bs);
    var d, s, ino := Decoy(bs), BlockNo(bs, ppos), DecoyInode(l, size);
    BlockOf(d, ppos);
    BlockWithin(s, |FileLeaves(d, ino)|, bs, ppos);
    DecoyFile(bs, l, size, s);
    ByteAt(d, FileLeaves(d, ino), s, ppos - s * bs);
    DecoyBytes(bs, ppos - s * bs);
  }

  /** A read that starts inside an indirection tree starts with its first leaf instead, which is the
      wrong one on some device. */
  lemma StartWrong(bs: nat, ppos: nat, count: nat)
    requires DiskOk(Decoy(bs)) && count > 0 && ppos + count + bs <= U32 && !GoodStart(bs, BlockNo(bs, ppos))
    ensures !RightRead(Decoy(bs), DecoyInode(Level(BlockNo(bs, ppos)), ppos + count), ppos, count)
  {
    hide CodeRead, Flat, Decoy, BlockNo, DiskOk;
    DecoyCode(bs, ppos, count);
    if ppos < |Flat(Decoy(bs), DecoyInode(Level(BlockNo(bs, ppos)), ppos + count))| {
      DecoyFlat(bs, ppos, Level(BlockNo(bs, ppos)), ppos + count);
    }
  }

  lemma DecoyBytes(bs: nat, r: nat)
    requires r < bs
    ensures |Decoy(bs).blocks(10)| == bs == |Decoy(bs).blocks(0)| && Decoy(bs).blocks(10)[r] == 1 &&
            Decoy(bs).blocks(0)[r] == 0
  {
  }

  lemma BlockWithin(s: nat, n: nat, bs: nat, p: nat)
    requires s * bs <= p < n * bs
    ensures s < n
  {
    if n <= s {
      if n < s {
        MultStep(n, s, bs);
      }
    }
  }

  /** Reads that start in block `s` are right on every device exactly if block `s` is a direct block
      or an indirection tree starts there. */
  lemma RightIffGoodStart(bs: nat, ppos: nat, count: nat)
    requires bs == 1024 || bs == 2048 || bs == 4096
    requires count > 0 && ppos + count + bs <= U32
    ensures (forall d, ino :: DiskOk(d) && d.bs == bs && InodeOk(ino) ==> RightRead(d, ino, ppos, count)) <==>
            GoodStart(bs, BlockNo(bs, ppos))
  {
    hide GoodStart, BlockNo, RightRead, Level;
    if GoodStart(bs, BlockNo(bs, ppos)) {
      forall d, ino | DiskOk(d) && d.bs == bs && InodeOk(ino)
        ensures RightRead(d, ino, ppos, count)
      {
        CodeReadRight(d, ino, ppos, count);
        SliceIsRight(d, ino, ppos, count);
      }
    } else {
      StartWrong(bs, ppos, count);
      assert InodeOk(DecoyInode(Level(BlockNo(bs, ppos)), ppos + count));
    }
  }

  lemma SliceIsRight(d: Disk, ino: Inode, ppos: nat, count: nat)
    requires DiskOk(d) && InodeOk(ino) && ppos < U32
    requires ppos + count <= |Flat(d, ino)| && CodeRead(d, ino, ppos, count) == Flat(d, ino)[ppos..ppos + count]
    ensures RightRead(d, ino, ppos, count)
  {
  }
}
