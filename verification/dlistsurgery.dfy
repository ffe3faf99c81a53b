/** Replacing, swapping, cutting and splicing in the circular lists of `kernel/utils/dlist.c`. */
module ListSurgery {
  import opened DList

  /** `next` and `prev` are inverse along `s`. */
  ghost predicate Path(m: Links, s: seq<Addr>) {
    forall i :: 0 <= i < |s| - 1 ==> Linked(m, s[i], s[i + 1])
  }

  ghost predicate Apart(a: seq<Addr>, b: seq<Addr>) {
    forall x :: x in a ==> x !in b
  }

  lemma PathJoin(m: Links, a: seq<Addr>, b: seq<Addr>)
    requires Path(m, a) && Path(m, b) && (a != [] && b != [] ==> Linked(m, a[|a| - 1], b[0]))
    ensures Path(m, a + b)
  {
    var s := a + b;
    forall i | 0 <= i < |s| - 1
      ensures Linked(m, s[i], s[i + 1])
    {
      if i >= |a| {
        assert Linked(m, b[i - |a|], b[i - |a| + 1]);
      }
    }
  }

  lemma PathPart(m: Links, s: seq<Addr>, i: nat, j: nat)
    requires Path(m, s) && i <= j <= |s|
    ensures Path(m, s[i..j])
  {
    forall k | 0 <= k < j - i - 1
      ensures Linked(m, s[i..j][k], s[i..j][k + 1])
    {
      assert Linked(m, s[i + k], s[i + k + 1]);
    }
  }

  /** A path keeps its links if nothing is written to `next` before its end or to `prev` behind its
      start. */
  lemma PathKept(m: Links, m': Links, s: seq<Addr>)
    requires Path(m, s) && Distinct(s)
    requires forall a :: a in s && a != s[|s| - 1] && a in m.next ==> a in m'.next && m'.next[a] == m.next[a]
    requires forall a :: a in s && a != s[0] && a in m.prev ==> a in m'.prev && m'.prev[a] == m.prev[a]
    ensures Path(m', s)
  {
    forall i | 0 <= i < |s| - 1
      ensures Linked(m', s[i], s[i + 1])
    {
      assert Linked(m, s[i], s[i + 1]);
    }
  }

  /** A ring is a path whose ends are linked. */
  lemma Closed(m: Links, s: seq<Addr>)
    requires s != [] && Distinct(s) && Path(m, s) && Linked(m, s[|s| - 1], s[0])
    ensures Ring(m, s)
  {
    forall a | a in s
      ensures a in m.next && a in m.prev
    {
      var i :| 0 <= i < |s| && s[i] == a;
      if i > 0 {
        assert Linked(m, s[i - 1], s[i - 1 + 1]);
      }
      if i < |s| - 1 {
        assert Linked(m, s[i], s[i + 1]);
      }
    }
  }

  lemma DistinctJoin(a: seq<Addr>, b: seq<Addr>)
    ensures Distinct(a + b) <==> Distinct(a) && Distinct(b) && Apart(a, b)
  {
    if Distinct(a + b) {
      DistinctParts(a, b);
    }
    if Distinct(a) && Distinct(b) && Apart(a, b) {
      DistinctWhole(a, b);
    }
  }

  lemma DistinctWhole(a: seq<Addr>, b: seq<Addr>)
    requires Distinct(a) && Distinct(b) && Apart(a, b)
    ensures Distinct(a + b)
  {
    forall i, j | 0 <= i < |a| && 0 <= j < |b|
      ensures a[i] != b[j]
    {
      assert a[i] in a && b[j] in b;
    }
  }

  lemma DistinctParts(a: seq<Addr>, b: seq<Addr>)
    requires Distinct(a + b)
    ensures Distinct(a) && Distinct(b) && Apart(a, b)
  {
    var s := a + b;
    forall i, j | 0 <= i < j < |a|
      ensures a[i] != a[j]
    {
      assert s[i] == a[i] && s[j] == a[j];
    }
    forall i, j | 0 <= i < j < |b|
      ensures b[i] != b[j]
    {
      assert s[|a| + i] == b[i] && s[|a| + j] == b[j];
    }
    forall i, j | 0 <= i < |a| && 0 <= j < |b|
      ensures a[i] != b[j]
    {
      assert s[i] == a[i] && s[|a| + j] == b[j];
    }
  }

  /** The writes of `dlist_splice_internal`. */
  function Spliced(m: Links, first: Addr, last: Addr, prev: Addr, next: Addr): Links {
    Links(m.next[prev := first][last := next], m.prev[first := prev][next := last])
  }

  /** Both lists' links stay in a row. */
  lemma RowsKept(m: Links, m': Links, head: Addr, a: seq<Addr>, list: Addr, b: seq<Addr>)
    requires Ring(m, [head] + b) && Ring(m, [list] + a) && a != [] && head !in a && list !in b && Apart(a, b)
    requires m' == Spliced(m, a[0], a[|a| - 1], head, if b == [] then head else b[0])
    ensures Path(m', a) && Path(m', b) && Distinct([head] + a + b)
    ensures b != [] ==> Linked(m, b[|b| - 1], head)
  {
    hide Ring, Spliced;
    RowOf(m, list, a);
    RowOf(m, head, b);
    SplicedElsewhere(m, a, head, b);
    PathKept(m, m', a);
    PathKept(m, m', b);
    DistinctJoin([head], a);
    DistinctJoin([head] + a, b);
  }

  lemma SplicedElsewhere(m: Links, a: seq<Addr>, head: Addr, b: seq<Addr>)
    requires a != [] && head !in a && head !in b && Apart(a, b)
    ensures var m' := Spliced(m, a[0], a[|a| - 1], head, if b == [] then head else b[0]);
            && (forall x :: x in a && x != a[|a| - 1] && x in m.next ==> x in m'.next && m'.next[x] == m.next[x])
            && (forall x :: x in a && x != a[0] && x in m.prev ==> x in m'.prev && m'.prev[x] == m.prev[x])
            && (forall x :: x in b && x in m.next ==> x in m'.next && m'.next[x] == m.next[x])
            && (forall x :: x in b && x != b[0] && x in m.prev ==> x in m'.prev && m'.prev[x] == m.prev[x])
            && Linked(m', head, a[0]) && Linked(m', a[|a| - 1], if b == [] then head else b[0])
  {
    assert a[0] in a && a[|a| - 1] in a && (b != [] ==> b[0] in b);
  }

  /** The links behind a list's head. */
  lemma RowOf(m: Links, head: Addr, b: seq<Addr>)
    requires Ring(m, [head] + b)
    ensures Path(m, b) && Distinct(b) && head !in b && (b != [] ==> Linked(m, b[|b| - 1], head))
  {
    var s := [head] + b;
    DistinctJoin([head], b);
    assert s[1..] == b;
    PathPart(m, s, 1, |s|);
  }

  /** Splicing puts the links behind the head of one list behind the head of another. */
  lemma SplicedRing(m: Links, list: Addr, a: seq<Addr>, head: Addr, b: seq<Addr>)
    requires Ring(m, [list] + a) && Ring(m, [head] + b) && a != [] && head !in a && list !in b && Apart(a, b)
    ensures Ring(Spliced(m, a[0], a[|a| - 1], head, if b == [] then head else b[0]), [head] + a + b)
  {
    hide Ring;
    var m' := Spliced(m, a[0], a[|a| - 1], head, if b == [] then head else b[0]);
    RowsKept(m, m', head, a, list, b);
    RowOf(m, head, b);
    SplicedElsewhere(m, a, head, b);
    PathJoin(m', [head], a);
    assert b != [] ==> Linked(m', b[|b| - 1], head) by { RowOf(m, head, b); EndStays(m, a, head, b); }
    PathJoin(m', [head] + a, b);
    Closed(m', [head] + a + b);
  }

  lemma EndStays(m: Links, a: seq<Addr>, head: Addr, b: seq<Addr>)
    requires a != [] && head !in a && head !in b && Apart(a, b) && (b != [] ==> Linked(m, b[|b| - 1], head))
    ensures b != [] ==> Linked(Spliced(m, a[0], a[|a| - 1], head, b[0]), b[|b| - 1], head)
  {
    assert a[0] in a && a[|a| - 1] in a && (b != [] ==> b[0] in b && b[|b| - 1] in b);
  }

  /** The writes of `dlist_cut_position_internal`. */
  function CutOff(m: Links, list: Addr, head: Addr, first: Addr, entry: Addr, rest: Addr): Links {
    Links(m.next[list := first][entry := list][head := rest], m.prev[first := list][list := entry][rest := head])
  }

  lemma CutElsewhere(m: Links, list: Addr, head: Addr, a: seq<Addr>, b: seq<Addr>)
    requires a != [] && list !in a && list !in b && list != head && head !in a && head !in b && Apart(a, b)
    ensures var m' := CutOff(m, list, head, a[0], a[|a| - 1], if b == [] then head else b[0]);
            && (forall x :: x in a && x != a[|a| - 1] && x in m.next ==> x in m'.next && m'.next[x] == m.next[x])
            && (forall x :: x in a && x != a[0] && x in m.prev ==> x in m'.prev && m'.prev[x] == m.prev[x])
            && (forall x :: x in b && x in m.next ==> x in m'.next && m'.next[x] == m.next[x])
            && (forall x :: x in b && x != b[0] && x in m.prev ==> x in m'.prev && m'.prev[x] == m.prev[x])
            && Linked(m', list, a[0]) && Linked(m', a[|a| - 1], list)
            && Linked(m', head, if b == [] then head else b[0])
            && (b != [] && Linked(m, b[|b| - 1], head) ==> Linked(m', b[|b| - 1], head))
  {
    assert a[0] in a && a[|a| - 1] in a && (b != [] ==> b[0] in b && b[|b| - 1] in b);
  }

  /** The parts of a list. */
  lemma RowsOf(m: Links, head: Addr, a: seq<Addr>, b: seq<Addr>)
    requires Ring(m, [head] + a + b)
    ensures Path(m, a) && Path(m, b) && Distinct(a) && Distinct(b) && Apart(a, b) && head !in a && head !in b
    ensures Linked(m, (if b == [] then ([head] + a)[|a|] else b[|b| - 1]), head)
  {
    var s := [head] + a + b;
    RowsApart(m, head, a, b);
    assert s[1..|a| + 1] == a && s[|a| + 1..|s|] == b;
    PathPart(m, s, 1, |a| + 1);
    PathPart(m, s, |a| + 1, |s|);
    hide Path, Distinct, Apart;
  }

  lemma RowsApart(m: Links, head: Addr, a: seq<Addr>, b: seq<Addr>)
    requires Ring(m, [head] + a + b)
    ensures Distinct(a) && Distinct(b) && Apart(a, b) && head !in a && head !in b
  {
    DistinctJoin([head] + a, b);
    DistinctJoin([head], a);
    assert head in [head] + a;
    assert forall x :: x in a ==> x in [head] + a;
  }

  /** Cutting moves the links up to an entry to a list of their own. */
  lemma CutRings(m: Links, list: Addr, head: Addr, a: seq<Addr>, b: seq<Addr>)
    requires Ring(m, [head] + a + b) && a != [] && list != head && list !in a && list !in b
    ensures var m' := CutOff(m, list, head, a[0], a[|a| - 1], if b == [] then head else b[0]);
            Ring(m', [list] + a) && Ring(m', [head] + b)
  {
    var m' := CutOff(m, list, head, a[0], a[|a| - 1], if b == [] then head else b[0]);
    RowsOf(m, head, a, b);
    hide Ring;
    CutElsewhere(m, list, head, a, b);
    PathKept(m, m', a);
    PathKept(m, m', b);
    DistinctJoin([list], a);
    DistinctJoin([head], b);
    PathJoin(m', [list], a);
    PathJoin(m', [head], b);
    Closed(m', [list] + a);
    Closed(m', [head] + b);
  }

  /** The writes of `dlist_replace`, in order. */
  function Replaced(m: Links, old_: Addr, link: Addr): Links
    requires old_ in m.next && old_ in m.prev
  {
    var m1 := Links(m.next[link := m.next[old_]], m.prev[m.next[old_] := link]);
    var m2 := Links(m1.next, m1.prev[link := m1.prev[old_]]);
    Links(m2.next[m2.prev[link] := link], m2.prev)
  }

  /** The new link takes the place of the old one. */
  lemma ReplacedRing(m: Links, old_: Addr, b: seq<Addr>, link: Addr)
    requires Ring(m, [old_] + b) && link !in [old_] + b
    ensures old_ in m.next && old_ in m.prev && Ring(Replaced(m, old_, link), [link] + b)
  {
    var s := [old_] + b;
    Neighbours(m, s, 0);
    RowOf(m, old_, b);
    hide Ring;
    assert s[0] == old_ && (b != [] ==> s[1] == b[0] && s[|s| - 1] == b[|b| - 1]);
    var m' := Replaced(m, old_, link);
    ReplacedElsewhere(m, old_, b, link);
    PathKept(m, m', b);
    DistinctJoin([link], b);
    PathJoin(m', [link], b);
    Closed(m', [link] + b);
  }

  lemma ReplacedElsewhere(m: Links, old_: Addr, b: seq<Addr>, link: Addr)
    requires old_ in m.next && old_ in m.prev && old_ !in b && link != old_ && link !in b
    requires m.next[old_] == (if b == [] then old_ else b[0]) && m.prev[old_] == (if b == [] then old_ else b[|b| - 1])
    ensures var m' := Replaced(m, old_, link);
            && (forall x :: x in b && x != b[|b| - 1] && x in m.next ==> x in m'.next && m'.next[x] == m.next[x])
            && (forall x :: x in b && x != b[0] && x in m.prev ==> x in m'.prev && m'.prev[x] == m.prev[x])
            && (if b == [] then Linked(m', link, link) else Linked(m', link, b[0]) && Linked(m', b[|b| - 1], link))
  {
    assert b != [] ==> b[0] in b && b[|b| - 1] in b;
  }

  /** The place before a link, in the list that is left when the link is taken out. */
  lemma TakenOut(m: Links, a: seq<Addr>, x: Addr, b: seq<Addr>)
    requires Ring(m, a + [x] + b)
    ensures x in m.prev && x in m.next && Ring(Bridged(m, m.prev[x], m.next[x]), a + b)
    ensures a != [] ==> m.prev[x] == a[|a| - 1]
    ensures x !in a && x !in b
  {
    var s := a + [x] + b;
    assert s[|a|] == x;
    Neighbours(m, s, |a|);
    BridgedRing(m, s, |a|);
    RemoveConcat(a, x, b);
    DistinctJoin(a + [x], b);
    DistinctJoin(a, [x]);
    assert x in a + [x];
  }

  /** `dlist_replace`: the new link takes the old one's place, in a ring of one too. */
  method Replace(mem: Memory, old_: Addr, link: Addr, ghost b: seq<Addr>)
    requires Ring(mem.m, [old_] + b) && link !in [old_] + b
    modifies mem
    ensures Ring(mem.m, [link] + b)
  {
    ReplacedRing(mem.m, old_, b, link);
    var m := mem.m;
    m := m.(next := m.next[link := m.next[old_]]);
    m := m.(prev := m.prev[m.next[link] := link]);
    m := m.(prev := m.prev[link := m.prev[old_]]);
    m := m.(next := m.next[m.prev[link] := link]);
    mem.m := m;
  }

  /** `dlist_remove` leaves the entry with null links. */
  method Remove(mem: Memory, entry: Addr, ghost a: seq<Addr>, ghost b: seq<Addr>)
    requires Ring(mem.m, a + [entry] + b)
    modifies mem
    ensures Ring(mem.m, a + b) && entry !in a && entry !in b
    ensures entry in mem.m.next && mem.m.next[entry] == 0 && entry in mem.m.prev && mem.m.prev[entry] == 0
  {
    TakenOut(mem.m, a, entry, b);
    mem.EntryRemove(entry);
    ghost var m1 := mem.m;
    mem.m := mem.m.(next := mem.m.next[entry := 0]);
    mem.m := mem.m.(prev := mem.m.prev[entry := 0]);
    RingFrame(m1, mem.m, a + b);
  }

  /** `dlist_swap` of two links of a ring, neighbours or not. */
  method Swap(mem: Memory, entry1: Addr, entry2: Addr, ghost a: seq<Addr>, ghost b: seq<Addr>)
    requires Ring(mem.m, [entry1] + a + [entry2] + b)
    modifies mem
    ensures Ring(mem.m, [entry2] + a + [entry1] + b)
  {
    hide Ring;
    ghost var rest := a + b;
    TakenOut(mem.m, [entry1] + a, entry2, b);
    var pos := mem.m.prev[entry2];
    Remove(mem, entry2, [entry1] + a, b);
    assert [entry1] + a + b == [entry1] + rest;
    assert entry2 !in [entry1] + rest;
    RowOf(mem.m, entry1, rest);
    Replace(mem, entry1, entry2, rest);
    if pos == entry1 {
      pos := entry2;
    }
    ghost var s := [entry2] + rest;
    BehindFirst(entry1, entry2, a, b, pos);
    mem.Add(entry1, pos, s, |a|);
    assert InsertAt(s, |a| + 1, entry1) == [entry2] + a + [entry1] + b;
  }

  lemma BehindFirst(entry1: Addr, entry2: Addr, a: seq<Addr>, b: seq<Addr>, pos: Addr)
    requires entry1 !in a && entry1 != entry2 && entry1 !in b
    requires pos == if ([entry1] + a)[|a|] == entry1 then entry2 else ([entry1] + a)[|a|]
    ensures pos == ([entry2] + (a + b))[|a|] && entry1 !in [entry2] + (a + b)
  {
  }

  /** `dlist_cut_position`: the links from behind the head up to the entry get a head of their own,
      but an empty list is left alone. */
  method CutPosition(mem: Memory, list: Addr, head: Addr, entry: Addr, ghost a: seq<Addr>, ghost b: seq<Addr>)
    requires Ring(mem.m, [head] + a + b) && list !in [head] + a + b
    requires entry == ([head] + a)[|a|]
    modifies mem
    ensures Ring(mem.m, [head] + b)
    ensures if a == [] && b == [] then mem.m == old(mem.m) else Ring(mem.m, [list] + a)
  {
    ghost var s := [head] + a + b;
    assert s[0] == head && s[|a|] == entry;
    RowsOf(mem.m, head, a, b);
    Neighbours(mem.m, s, 0);
    EmptyIffAlone(mem.m, s, 0);
    Singular(mem.m, s, |a|);
    if mem.IsEmpty(head) || (mem.m.next[head] == mem.m.prev[head] && mem.m.next[head] != entry && head != entry) {
      assert s == [head] + b;
      return;
    }
    if entry == head {
      HeadOnly(mem.m, list, head, b);
      assert [head] + a + b == [head] + b && [list] + a == [list];
      mem.HeadInit(list);
    } else {
      Neighbours(mem.m, s, |a|);
      CutRings(mem.m, list, head, a, b);
      var m := mem.m;
      var first := m.next[entry];
      m := m.(next := m.next[list := m.next[head]]);
      m := m.(prev := m.prev[m.next[list] := list]);
      m := m.(prev := m.prev[list := entry]);
      m := m.(next := m.next[entry := list]);
      m := m.(next := m.next[head := first]);
      m := m.(prev := m.prev[first := head]);
      mem.m := m;
    }
  }

  /** `dlist_splice`: the links of one list go behind the head of another. */
  method Splice(mem: Memory, list: Addr, head: Addr, ghost a: seq<Addr>, ghost b: seq<Addr>)
    requires Ring(mem.m, [list] + a) && Ring(mem.m, [head] + b) && head !in a && list !in b && list != head &&
             Apart(a, b)
    modifies mem
    ensures Ring(mem.m, [head] + a + b)
  {
    hide Ring, Apart;
    EmptyIffAlone(mem.m, [list] + a, 0);
    Neighbours(mem.m, [list] + a, 0);
    Neighbours(mem.m, [head] + b, 0);
    if !mem.IsEmpty(list) {
      SplicedRing(mem.m, list, a, head, b);
      var first, last, next := mem.m.next[list], mem.m.prev[list], mem.m.next[head];
      mem.m := mem.m.(prev := mem.m.prev[first := head]);
      mem.m := mem.m.(next := mem.m.next[head := first]);
      mem.m := mem.m.(next := mem.m.next[last := next]);
      mem.m := mem.m.(prev := mem.m.prev[next := last]);
    } else {
      assert [head] + a + b == [head] + b;
    }
  }

  /** Cutting and splicing undo each other. */
  method CutAndSplice(mem: Memory, list: Addr, head: Addr, entry: Addr, ghost a: seq<Addr>, ghost b: seq<Addr>)
    requires Ring(mem.m, [head] + a + b) && list !in [head] + a + b && (a != [] || b != []) &&
             entry == ([head] + a)[|a|]
    modifies mem
    ensures Ring(mem.m, [head] + a + b)
  {
    RowsOf(mem.m, head, a, b);
    CutPosition(mem, list, head, entry, a, b);
    assert list !in b && list != head;
    Splice(mem, list, head, a, b);
  }

  /** With one link besides the head, neighbours on both sides are the same. */
  lemma Singular(m: Links, s: seq<Addr>, k: nat)
    requires Ring(m, s) && k < |s|
    ensures s[0] in m.next && s[0] in m.prev && (m.next[s[0]] == m.prev[s[0]] ==> s[k] == s[0] || s[k] == m.next[s[0]])
  {
    Neighbours(m, s, 0);
    assert m.next[s[0]] == m.prev[s[0]] ==> |s| <= 2;
  }

  lemma HeadOnly(m: Links, list: Addr, head: Addr, b: seq<Addr>)
    requires Ring(m, [head] + b) && list !in [head] + b
    ensures Ring(Reset(m, list), [list]) && Ring(Reset(m, list), [head] + b)
  {
    RingFrame(m, Reset(m, list), [head] + b);
  }
}
