/** Searching a directory: `ext2_fs_ino_find` under `ext2_fs_bread_rec` of
    `kernel/filesystem/ext2.c`. */
module Ext2Dir {
  import opened Ext2Spec

  const ENOENT: int := 2
  const ENTRY_HEADER: nat := 8

  // a directory entry with the bytes of its name
  datatype Entry = Entry(ino: nat, name: seq<byte>)

  /** What a C string in `s` spells: everything before the first NUL. */
  function CString(s: seq<byte>): seq<byte> {
    if s == [] || s[0] == 0 then [] else [s[0]] + CString(s[1..])
  }

  // struct ext2_dir_entry { uint32_t ino; uint16_t rec_len; uint8_t name_len; uint8_t file_type; char name[]; }
  function Ino(p: seq<byte>, off: nat): nat
    requires off + ENTRY_HEADER <= |p|
  {
    p[off] as nat + 0x100 * p[off + 1] as nat + 0x1_0000 * p[off + 2] as nat + 0x100_0000 * p[off + 3] as nat
  }

  function RecLen(p: seq<byte>, off: nat): nat
    requires off + ENTRY_HEADER <= |p|
  {
    p[off + 4] as nat + 0x100 * p[off + 5] as nat
  }

  function Name(p: seq<byte>, off: nat): seq<byte>
    requires off + ENTRY_HEADER + NameLen(p, off) <= |p|
  {
    CString(p[off + ENTRY_HEADER..off + ENTRY_HEADER + NameLen(p, off)])
  }

  function NameLen(p: seq<byte>, off: nat): nat {
    if off + ENTRY_HEADER <= |p| then p[off + 6] as nat else 0
  }

  predicate EntryFits(p: seq<byte>, off: nat) {
    && off + ENTRY_HEADER + NameLen(p, off) <= |p|
    && 0 < RecLen(p, off) <= |p| - off
  }

  /** From `off` on, the entries of the block follow one another up to its very end. */
  predicate Tiled(p: seq<byte>, off: nat)
    decreases |p| - off
  {
    off == |p| || (EntryFits(p, off) && Tiled(p, off + RecLen(p, off)))
  }

  function Entries(p: seq<byte>, off: nat): seq<Entry>
    decreases |p| - off
  {
    if !EntryFits(p, off) then []
    else [Entry(Ino(p, off), Name(p, off))] + Entries(p, off + RecLen(p, off))
  }

  /** A directory block as the search can read it: tiled by its entries, with inode numbers that are
      not negative as `int`. */
  ghost predicate DirBlock(p: seq<byte>) {
    Tiled(p, 0) && forall e :: e in Entries(p, 0) ==> e.ino < 0x8000_0000
  }

  ghost predicate DirBlocks(d: Disk, leaves: seq<nat>) {
    forall b :: b in leaves ==> DirBlock(d.blocks(b))
  }

  // a directory entry as it is written, with its file type and what follows its name
  datatype Record = Record(e: Entry, kind: byte, slack: seq<byte>)

  /** The name is short and has no NUL in it, and the lengths fit their fields. */
  predicate RecordOk(r: Record) {
    && r.e.ino < U32 && |r.e.name| < 256 && 0 !in r.e.name
    && ENTRY_HEADER + |r.e.name| + |r.slack| < 0x1_0000
  }

  /** Inode number, length of the record, length of the name, file type and name. */
  function Written(r: Record): seq<byte>
    requires RecordOk(r)
  {
    Encoded(r.e.ino, 4) + Encoded(ENTRY_HEADER + |r.e.name| + |r.slack|, 2) + [|r.e.name|, r.kind] + r.e.name + r.slack
  }

  function WrittenAll(rs: seq<Record>): seq<byte>
    requires forall r :: r in rs ==> RecordOk(r)
  {
    if rs == [] then [] else Written(rs[0]) + WrittenAll(rs[1..])
  }

  function EntriesOf(rs: seq<Record>): seq<Entry> {
    if rs == [] then [] else [rs[0].e] + EntriesOf(rs[1..])
  }

  lemma {:induction false} CStringWhole(s: seq<byte>)
    requires 0 !in s
    ensures CString(s) == s
  {
    if s != [] {
      CStringWhole(s[1..]);
    }
  }

  /** The fields of a record, wherever it stands. */
  lemma RecordRead(pre: seq<byte>, r: Record, post: seq<byte>)
    requires RecordOk(r)
    ensures var p, off := pre + Written(r) + post, |pre|;
            && |Written(r)| == ENTRY_HEADER + |r.e.name| + |r.slack| && EntryFits(p, off)
            && Ino(p, off) == r.e.ino && RecLen(p, off) == |Written(r)| && Name(p, off) == r.e.name
  {
    var p, off, w, len := pre + Written(r) + post, |pre|, Written(r), ENTRY_HEADER + |r.e.name| + |r.slack|;
    EncodedFour(r.e.ino);
    EncodedTwo(len);
    WordSum(r.e.ino);
    assert forall k :: 0 <= k < |w| ==> p[off + k] == w[k];
    assert w[0..4] == Encoded(r.e.ino, 4) && w[4..6] == Encoded(len, 2);
    assert w[0] == w[0..4][0] && w[1] == w[0..4][1] && w[2] == w[0..4][2] && w[3] == w[0..4][3];
    assert w[4] == w[4..6][0] && w[5] == w[4..6][1] && w[6] == |r.e.name|;
    assert p[off + ENTRY_HEADER..off + ENTRY_HEADER + |r.e.name|] == r.e.name;
    CStringWhole(r.e.name);
  }

  /** A written directory is read back: its entries in order, up to its end. */
  lemma {:induction false} DirectoryRead(pre: seq<byte>, rs: seq<Record>)
    requires forall r :: r in rs ==> RecordOk(r)
    ensures Entries(pre + WrittenAll(rs), |pre|) == EntriesOf(rs) && Tiled(pre + WrittenAll(rs), |pre|)
    decreases |rs|
  {
    var p := pre + WrittenAll(rs);
    if rs == [] {
      assert !EntryFits(p, |p|);
    } else {
      var next := pre + Written(rs[0]);
      assert rs[0] in rs;
      assert p == next + WrittenAll(rs[1..]);
      RecordRead(pre, rs[0], WrittenAll(rs[1..]));
      DirectoryRead(next, rs[1..]);
    }
  }

  /** The entries of all blocks, from left to right. */
  function AllEntries(d: Disk, leaves: seq<nat>): seq<Entry> {
    if leaves == [] then [] else Entries(d.blocks(leaves[0]), 0) + AllEntries(d, leaves[1..])
  }

  /** The inode number of the first entry with the name, or the error if there is none. */
  function FirstMatch(es: seq<Entry>, name: seq<byte>): (r: int)
    ensures r == -ENOENT || r >= 0
  {
    if es == [] then -ENOENT else if es[0].name == name then es[0].ino else FirstMatch(es[1..], name)
  }

  lemma {:induction false} FirstMatchIs(es: seq<Entry>, name: seq<byte>)
    ensures FirstMatch(es, name) == -ENOENT <==> forall k :: 0 <= k < |es| ==> es[k].name != name
    ensures FirstMatch(es, name) != -ENOENT ==>
              exists k :: 0 <= k < |es| && es[k].name == name && es[k].ino == FirstMatch(es, name)
                          && forall l :: 0 <= l < k ==> es[l].name != name
  {
    if es != [] && es[0].name != name {
      FirstMatchIs(es[1..], name);
      assert forall k :: 1 <= k < |es| ==> es[k] == es[1..][k - 1];
      if FirstMatch(es, name) != -ENOENT {
        var k :| 0 <= k < |es| - 1 && es[1..][k].name == name && es[1..][k].ino == FirstMatch(es, name)
                 && forall l :: 0 <= l < k ==> es[1..][l].name != name;
        assert es[k + 1].name == name;
      }
    }
  }

  /** The same for entries that are in use: those with an inode. */
  function FirstUsed(es: seq<Entry>, name: seq<byte>): int {
    if es == [] then -ENOENT
    else if es[0].name == name && es[0].ino != 0 then es[0].ino else FirstUsed(es[1..], name)
  }

  /** The first entry of the name is not in use. */
  ghost predicate UnusedFirst(es: seq<Entry>, name: seq<byte>) {
    exists k :: 0 <= k < |es| && es[k].name == name && es[k].ino == 0 && forall l :: 0 <= l < k ==> es[l].name != name
  }

  /** The search does not ask whether an entry is in use: what it finds is right exactly if the first
      entry of the name is. */
  lemma {:induction false} SkipsUnused(es: seq<Entry>, name: seq<byte>)
    ensures FirstMatch(es, name) == FirstUsed(es, name) <==> !UnusedFirst(es, name)
    ensures FirstUsed(es, name) != 0
  {
    if es != [] {
      SkipsUnused(es[1..], name);
      assert forall k :: 1 <= k < |es| ==> es[k] == es[1..][k - 1];
      if es[0].name == name && es[0].ino == 0 {
        assert UnusedFirst(es, name);
      } else if es[0].name != name {
        if UnusedFirst(es[1..], name) {
          var k :| 0 <= k < |es| - 1 && es[1..][k].name == name && es[1..][k].ino == 0 && forall l :: 0 <= l < k ==>
              es[1..][l].name != name;
          assert es[k + 1].name == name;
        }
        if UnusedFirst(es, name) {
          var k :| 0 <= k < |es| && es[k].name == name && es[k].ino == 0 && forall l :: 0 <= l < k ==>
              es[l].name != name;
          assert es[1..][k - 1].name == name;
        }
      }
    }
  }

  /** An unused entry is found. */
  lemma UnusedFound(name: seq<byte>)
    ensures FirstMatch([Entry(0, name)], name) == 0 && FirstUsed([Entry(0, name)], name) == -ENOENT
  {
    assert [Entry(0, name)][1..] == [];
  }

  lemma {:induction false} FirstMatchAppend(a: seq<Entry>, b: seq<Entry>, name: seq<byte>)
    ensures FirstMatch(a + b, name) == if FirstMatch(a, name) >= 0 then FirstMatch(a, name) else FirstMatch(b, name)
  {
    if a == [] {
      assert a + b == b;
    } else {
      assert (a + b)[1..] == a[1..] + b;
      FirstMatchAppend(a[1..], b, name);
    }
  }

  lemma {:induction false} AllEntriesAppend(d: Disk, a: seq<nat>, b: seq<nat>)
    ensures AllEntries(d, a + b) == AllEntries(d, a) + AllEntries(d, b)
  {
    if a == [] {
      assert a + b == b;
    } else {
      assert (a + b)[1..] == a[1..] + b;
      AllEntriesAppend(d, a[1..], b);
    }
  }

  /** `uint32_t` to `int` */
  function ToInt(x: nat): int {
    if x < 0x8000_0000 then x else x - U32
  }

  /** `ext2_fs_ino_find`.  An inode number from 2^31 on comes out negative. */
  method InoFind(d: Disk, block: nat, name: seq<byte>) returns (r: int)
    requires Tiled(d.blocks(block), 0)
    ensures var n := FirstMatch(Entries(d.blocks(block), 0), name);
            r == if n < 0x8000_0000 then n else n - 0x1_0000_0000
  {
    var p := d.blocks(block);
    var size := 0;
    while size < |p|
      invariant size <= |p| && Tiled(p, size)
      invariant FirstMatch(Entries(p, 0), name) == FirstMatch(Entries(p, size), name)
    {
      var name_tmp := p[size + ENTRY_HEADER..size + ENTRY_HEADER + NameLen(p, size)];
      assert Entries(p, size)[0] == Entry(Ino(p, size), CString(name_tmp));
      if CString(name_tmp) == name {
        return ToInt(Ino(p, size));
      }
      size := size + RecLen(p, size);
    }
    return -ENOENT;
  }

  lemma SearchStart(d: Disk, b: nat, level: nat, name: seq<byte>)
    requires DiskOk(d) && level > 0
    ensures FirstMatch(AllEntries(d, LeavesBelow(d, b, level, 0)), name) == -ENOENT
  {
  }

  /** With nothing found below the first `i` pointers, the next one decides. */
  lemma SearchNext(d: Disk, b: nat, level: nat, i: nat, name: seq<byte>)
    requires DiskOk(d) && level > 0 && i < N(d) && DirBlocks(d, Leaves(d, b, level))
    requires FirstMatch(AllEntries(d, LeavesBelow(d, b, level, i)), name) == -ENOENT
    ensures |d.blocks(b)| == d.bs && DirBlocks(d, Leaves(d, Pointer(d, b, i), level - 1))
    ensures FirstMatch(AllEntries(d, LeavesBelow(d, b, level, i + 1)), name)
            == FirstMatch(AllEntries(d, Leaves(d, Pointer(d, b, i), level - 1)), name)
  {
    hide FirstMatch, Leaves, LeavesBelow, AllEntries, Pointer, DirBlock;
    var below, child := LeavesBelow(d, b, level, i), Leaves(d, Pointer(d, b, i), level - 1);
    MoreBelow(d, b, level, i);
    FirstBelow(d, b, level, i + 1, |below + child|);
    AllEntriesAppend(d, below, child);
    FirstMatchAppend(AllEntries(d, below), AllEntries(d, child), name);
    assert (below + child)[..|below + child|] == below + child;
    forall l | l in child
      ensures l in Leaves(d, b, level)
    {
      assert l in below + child;
      assert l in Leaves(d, b, level)[..|below + child|];
    }
  }

  /** What is found below the first pointers is found first. */
  lemma SearchDone(d: Disk, b: nat, level: nat, i: nat, name: seq<byte>)
    requires DiskOk(d) && level > 0 && i <= N(d)
    requires i == N(d) || FirstMatch(AllEntries(d, LeavesBelow(d, b, level, i)), name) >= 0
    ensures FirstMatch(AllEntries(d, Leaves(d, b, level)), name)
            == FirstMatch(AllEntries(d, LeavesBelow(d, b, level, i)), name)
  {
    hide FirstMatch, AllEntries, Pointer;
    var below, all := LeavesBelow(d, b, level, i), Leaves(d, b, level);
    BelowFirst(d, b, level, i, N(d));
    if i < N(d) {
      assert all == below + all[|below|..];
      AllEntriesAppend(d, below, all[|below|..]);
      FirstMatchAppend(AllEntries(d, below), AllEntries(d, all[|below|..]), name);
    }
  }

  lemma LeafEntries(d: Disk, b: nat)
    requires DiskOk(d)
    ensures Leaves(d, b, 0) == [b] && AllEntries(d, [b]) == Entries(d.blocks(b), 0)
  {
    assert [b][1..] == [];
  }

  lemma {:induction false} MatchSmall(es: seq<Entry>, name: seq<byte>)
    requires forall e :: e in es ==> e.ino < 0x8000_0000
    ensures FirstMatch(es, name) < 0x8000_0000
  {
    if es != [] {
      MatchSmall(es[1..], name);
    }
  }

  lemma LeafBlock(d: Disk, b: nat, name: seq<byte>)
    requires DirBlocks(d, [b])
    ensures Tiled(d.blocks(b), 0) && FirstMatch(Entries(d.blocks(b), 0), name) < 0x8000_0000
  {
    assert b in [b];
    MatchSmall(Entries(d.blocks(b), 0), name);
  }

  /** `ext2_fs_bread_rec` with `ext2_fs_ino_find`: an indirection tree of any depth is searched as one
      list of entries. */
  method BReadRec(d: Disk, level: nat, block: nat, name: seq<byte>) returns (r: int)
    requires DiskOk(d) && DirBlocks(d, Leaves(d, block, level))
    ensures r == FirstMatch(AllEntries(d, Leaves(d, block, level)), name)
    ensures r == -ENOENT || r >= 0
    decreases level
  {
    hide Leaves, LeavesBelow, DirBlock, Entries, FirstMatch, Pointer, AllEntries;
    if level > 0 {
      r := -ENOENT;
      var i := 0;
      SearchStart(d, block, level, name);
      while i < d.bs / 4
        invariant i <= N(d) && r == -ENOENT
        invariant r == FirstMatch(AllEntries(d, LeavesBelow(d, block, level, i)), name)
      {
        SearchNext(d, block, level, i, name);
        r := BReadRec(d, level - 1, Pointer(d, block, i), name);
        if r >= 0 {
          SearchDone(d, block, level, i + 1, name);
          break;
        }
        i := i + 1;
      }
      if r < 0 {
        SearchDone(d, block, level, i, name);
      }
    } else {
      LeafEntries(d, block);
      LeafBlock(d, block, name);
      r := InoFind(d, block, name);
    }
  }
}
