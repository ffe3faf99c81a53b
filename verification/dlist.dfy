/** The intrusive circular lists of `kernel/utils/dlist.c`.

    Memory is seen as the `next` and `prev` fields of the links at each address.  The abstract
    value of a ring is the sequence of its links, read along `next` from some link; which link
    comes first is a choice of the reader. */
module DList {
  type Addr = nat

  datatype Links = Links(next: map<Addr, Addr>, prev: map<Addr, Addr>)

  ghost predicate Distinct<T>(s: seq<T>) {
    forall i, j :: 0 <= i < j < |s| ==> s[i] != s[j]
  }

  /** `a` is followed by `b`. */
  ghost predicate Linked(m: Links, a: Addr, b: Addr) {
    a in m.next && m.next[a] == b && b in m.prev && m.prev[b] == a
  }

  /** `s` is a ring: distinct links, `next` and `prev` inverse to each other all the way round. */
  ghost predicate Ring(m: Links, s: seq<Addr>) {
    && Distinct(s)
    && (forall a :: a in s ==> a in m.next && a in m.prev)
    && (s != [] ==> Linked(m, s[|s| - 1], s[0]))
    && (forall i :: 0 <= i < |s| - 1 ==> Linked(m, s[i], s[i + 1]))
  }

  ghost predicate SelfLinked(m: Links, a: Addr) {
    Linked(m, a, a)
  }

  function InsertAt<T>(s: seq<T>, k: nat, x: T): (r: seq<T>)
    requires k <= |s|
    ensures |r| == |s| + 1 && r[k] == x
    ensures forall i {:trigger r[i]} :: 0 <= i < k ==> r[i] == s[i]
    ensures forall i {:trigger r[i]} :: k < i < |r| ==> r[i] == s[i - 1]
  {
    s[..k] + [x] + s[k..]
  }

  function RemoveAt<T>(s: seq<T>, k: nat): (r: seq<T>)
    requires k < |s|
    ensures |r| == |s| - 1
    ensures forall i {:trigger r[i]} :: 0 <= i < k ==> r[i] == s[i]
    ensures forall i {:trigger r[i]} :: k <= i < |r| ==> r[i] == s[i + 1]
  {
    s[..k] + s[k + 1..]
  }

  lemma InsertConcat<T>(a: seq<T>, b: seq<T>, x: T)
    ensures InsertAt(a + b, |a|, x) == a + [x] + b
  {
  }

  lemma RemoveConcat<T>(a: seq<T>, x: T, b: seq<T>)
    ensures RemoveAt(a + [x] + b, |a|) == a + b
  {
  }

  lemma ReplaceConcat<T>(a: seq<T>, x: T, b: seq<T>, y: T)
    ensures (a + [x] + b)[|a| := y] == a + [y] + b
  {
  }

  lemma Neighbours(m: Links, s: seq<Addr>, k: nat)
    requires Ring(m, s) && k < |s|
    ensures s[k] in m.next && m.next[s[k]] == s[if k == |s| - 1 then 0 else k + 1]
    ensures s[k] in m.prev && m.prev[s[k]] == s[if k == 0 then |s| - 1 else k - 1]
  {
    assert k < |s| - 1 ==> Linked(m, s[k], s[k + 1]);
    if k > 0 {
      assert Linked(m, s[k - 1], s[k - 1 + 1]);
    }
  }

  /** A link is its own neighbour only in a ring of one. */
  lemma EmptyIffAlone(m: Links, s: seq<Addr>, k: nat)
    requires Ring(m, s) && k < |s|
    ensures m.next[s[k]] == s[k] <==> |s| == 1
  {
    Neighbours(m, s, k);
  }

  /** A ring only depends on the fields of its own links. */
  lemma RingFrame(m: Links, m': Links, s: seq<Addr>)
    requires Ring(m, s)
    requires forall a :: a in s && a in m.next ==> a in m'.next && m'.next[a] == m.next[a]
    requires forall a :: a in s && a in m.prev ==> a in m'.prev && m'.prev[a] == m.prev[a]
    ensures Ring(m', s)
  {
    forall i | 0 <= i < |s| - 1
      ensures Linked(m', s[i], s[i + 1])
    {
      assert Linked(m, s[i], s[i + 1]);
    }
  }

  /** The four writes of `dlist_add_internal`, in order. */
  function Between(m: Links, link: Addr, prev: Addr, next: Addr): Links {
    Links(m.next[link := next][prev := link], m.prev[next := link][link := prev])
  }

  /** The two writes of `dlist_remove_internal`. */
  function Bridged(m: Links, prev: Addr, next: Addr): Links {
    Links(m.next[prev := next], m.prev[next := prev])
  }

  function Reset(m: Links, a: Addr): Links {
    Links(m.next[a := a], m.prev[a := a])
  }

  /** Insertion writes only the two neighbours and the new link. */
  lemma BetweenFrame(m: Links, link: Addr, prev: Addr, next: Addr, a: Addr)
    requires SelfLinked(m, a) && a != link && a != prev && a != next
    ensures SelfLinked(Between(m, link, prev, next), a)
  {
  }

  /** Removal writes only the two neighbours and the removed link. */
  lemma RemoveFrame(m: Links, s: seq<Addr>, k: nat, a: Addr)
    requires Ring(m, s) && k < |s| && SelfLinked(m, a) && a !in s
    ensures SelfLinked(Reset(Bridged(m, m.prev[s[k]], m.next[s[k]]), s[k]), a)
  {
    Neighbours(m, s, k);
    assert m.prev[s[k]] in s && m.next[s[k]] in s;
  }

  /** Inserting into one ring leaves another one alone. */
  lemma BetweenApart(m: Links, s: seq<Addr>, link: Addr, prev: Addr, next: Addr)
    requires Ring(m, s) && link !in s && prev !in s && next !in s
    ensures Ring(Between(m, link, prev, next), s)
  {
    RingFrame(m, Between(m, link, prev, next), s);
  }

  /** Removing from one ring leaves another one alone. */
  lemma RemoveApart(m: Links, r: seq<Addr>, k: nat, s: seq<Addr>)
    requires Ring(m, r) && Ring(m, s) && k < |r| && forall a :: a in r ==> a !in s
    ensures Ring(Reset(Bridged(m, m.prev[r[k]], m.next[r[k]]), r[k]), s)
  {
    Neighbours(m, r, k);
    assert m.prev[r[k]] in r && m.next[r[k]] in r;
    RingFrame(m, Reset(Bridged(m, m.prev[r[k]], m.next[r[k]]), r[k]), s);
  }

  lemma BetweenRing(m: Links, s: seq<Addr>, k: nat, link: Addr)
    requires Ring(m, s) && s != [] && k <= |s| && link !in s
    ensures var prev, next := s[if k == 0 then |s| - 1 else k - 1], s[if k == |s| then 0 else k];
            Ring(Between(m, link, prev, next), InsertAt(s, k, link))
  {
    var prev, next := s[if k == 0 then |s| - 1 else k - 1], s[if k == |s| then 0 else k];
    var m', r := Between(m, link, prev, next), InsertAt(s, k, link);
    forall i | 0 <= i < |r| - 1
      ensures Linked(m', r[i], r[i + 1])
    {
      if i < k - 1 {
        assert Linked(m, s[i], s[i + 1]);
      } else if i > k {
        assert Linked(m, s[i - 1], s[i - 1 + 1]);
      }
    }
  }

  lemma BridgedRing(m: Links, s: seq<Addr>, k: nat)
    requires Ring(m, s) && k < |s|
    ensures Ring(Bridged(m, m.prev[s[k]], m.next[s[k]]), RemoveAt(s, k))
    ensures |s| == 1 ==> Bridged(m, m.prev[s[k]], m.next[s[k]]) == m
  {
    Neighbours(m, s, k);
    var m', r := Bridged(m, m.prev[s[k]], m.next[s[k]]), RemoveAt(s, k);
    forall i | 0 <= i < |r| - 1
      ensures Linked(m', r[i], r[i + 1])
    {
      if i < k - 1 {
        assert Linked(m, s[i], s[i + 1]);
      } else if i >= k {
        assert Linked(m, s[i + 1], s[i + 1 + 1]);
      }
    }
  }

  /** The writes of `dlist_remove_init` leave a ring without the link, which is a ring of its own. */
  lemma RemovedRing(m: Links, s: seq<Addr>, k: nat)
    requires Ring(m, s) && k < |s|
    ensures s[k] in m.prev && s[k] in m.next
    ensures var m' := Reset(Bridged(m, m.prev[s[k]], m.next[s[k]]), s[k]);
            Ring(m', RemoveAt(s, k)) && SelfLinked(m', s[k]) && (|s| == 1 ==> m' == m)
  {
    Neighbours(m, s, k);
    BridgedRing(m, s, k);
    var m1 := Bridged(m, m.prev[s[k]], m.next[s[k]]);
    RingFrame(m1, Reset(m1, s[k]), RemoveAt(s, k));
  }

  class Memory {
    var m: Links

    /** `dlist_head_init` */
    method HeadInit(list: Addr)
      modifies this
      ensures m == Reset(old(m), list) && SelfLinked(m, list)
    {
      m := m.(next := m.next[list := list]);
      m := m.(prev := m.prev[list := list]);
    }

    /** `dlist_is_empty` */
    predicate IsEmpty(head: Addr)
      requires head in m.next
      reads this
    {
      m.next[head] == head
    }

    /** `dlist_add_internal` */
    method AddInternal(link: Addr, prev: Addr, next: Addr)
      modifies this
      ensures m == Between(old(m), link, prev, next)
    {
      m := m.(prev := m.prev[next := link]);
      m := m.(next := m.next[link := next]);
      m := m.(prev := m.prev[link := prev]);
      m := m.(next := m.next[prev := link]);
    }

    /** `dlist_add`: insert after position `k` of the ring `s`. */
    method Add(link: Addr, head: Addr, ghost s: seq<Addr>, ghost k: nat)
      requires Ring(m, s) && link !in s && k < |s| && head == s[k]
      modifies this
      ensures m == Between(old(m), link, head, s[if k == |s| - 1 then 0 else k + 1])
      ensures Ring(m, InsertAt(s, k + 1, link))
    {
      Neighbours(m, s, k);
      BetweenRing(m, s, k + 1, link);
      AddInternal(link, head, m.next[head]);
    }

    /** `dlist_add_tail`: insert before `head`.  Before the first link and after the last are the
        same place of the ring; `k` says how the reader wants the result written. */
    method AddTail(link: Addr, head: Addr, ghost s: seq<Addr>, ghost k: nat)
      requires Ring(m, s) && link !in s && s != [] && k <= |s|
      requires head == s[if k == |s| then 0 else k]
      modifies this
      ensures m == Between(old(m), link, s[if k == 0 then |s| - 1 else k - 1], head)
      ensures Ring(m, InsertAt(s, k, link))
    {
      Neighbours(m, s, if k == |s| then 0 else k);
      BetweenRing(m, s, k, link);
      AddInternal(link, m.prev[head], head);
    }

    /** `dlist_entry_remove` through `dlist_remove_internal`. */
    method EntryRemove(entry: Addr)
      requires entry in m.next && entry in m.prev
      modifies this
      ensures m == Bridged(old(m), old(m).prev[entry], old(m).next[entry])
    {
      var next, prev := m.next[entry], m.prev[entry];
      m := m.(prev := m.prev[next := prev]);
      m := m.(next := m.next[prev := next]);
    }

    /** `dlist_remove_init`: the rest is a ring again and the entry is a ring of its own. */
    method RemoveInit(entry: Addr, ghost s: seq<Addr>, ghost k: nat)
      requires Ring(m, s) && k < |s| && entry == s[k]
      modifies this
      ensures m == Reset(Bridged(old(m), old(m).prev[entry], old(m).next[entry]), entry)
      ensures Ring(m, RemoveAt(s, k)) && SelfLinked(m, entry)
    {
      RemovedRing(m, s, k);
      EntryRemove(entry);
      HeadInit(entry);
    }
  }
}
