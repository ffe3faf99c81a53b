/** The priority-sorted list of `kernel/utils/plist.c`, as it lives in memory: one ring through
    every node, starting at the head, and one ring through the first node of each group of equal
    priority. */
module PList {
  import opened Wrappers
  import opened DList
  import opened PListSpec

  // struct plist_node { int prio; struct dlist_head prio_list, node_list; }
  const PRIO_LINK: nat := 4
  const NODE_LINK: nat := 12
  const NODE_SIZE: nat := 20
  const HEAD_SIZE: nat := 8

  function PrioLink(node: Addr): Addr { node + PRIO_LINK }
  function NodeLink(node: Addr): Addr { node + NODE_LINK }

  ghost function NodeRing(head: Addr, q: Queue<Addr>): (r: seq<Addr>)
    ensures |r| == |q| + 1 && r[0] == head
    ensures forall k :: 1 <= k < |r| ==> r[k] == NodeLink(q[k - 1].node)
  {
    [head] + seq(|q|, i requires 0 <= i < |q| => NodeLink(q[i].node))
  }

  ghost function LeadRing(P: seq<Addr>): (r: seq<Addr>)
    ensures |r| == |P| && forall j :: 0 <= j < |r| ==> r[j] == PrioLink(P[j])
  {
    seq(|P|, j requires 0 <= j < |P| => PrioLink(P[j]))
  }

  /** Distinct objects do not overlap. */
  ghost predicate Disjoint(a: Addr, b: Addr) {
    a + NODE_SIZE <= b || b + NODE_SIZE <= a
  }

  ghost predicate Outside(head: Addr, q: Queue<Addr>, node: Addr) {
    && (head + HEAD_SIZE <= node || node + NODE_SIZE <= head)
    && (forall i :: 0 <= i < |q| ==> Disjoint(q[i].node, node))
  }

  ghost predicate Apart(head: Addr, q: Queue<Addr>) {
    && (forall i :: 0 <= i < |q| ==> head + HEAD_SIZE <= q[i].node || q[i].node + NODE_SIZE <= head)
    && (forall i, j :: 0 <= i < j < |q| ==> Disjoint(q[i].node, q[j].node))
  }

  ghost predicate Detached(m: Links, node: Addr) {
    SelfLinked(m, PrioLink(node)) && SelfLinked(m, NodeLink(node))
  }

  /** The nodes `P` make up the leader ring, in order; every other node of `q` is on a leader ring
      of its own. */
  ghost predicate LinkedAs(m: Links, q: Queue<Addr>, P: seq<Addr>) {
    && Ring(m, LeadRing(P))
    && (forall i :: 0 <= i < |q| && q[i].node !in P ==> SelfLinked(m, PrioLink(q[i].node)))
  }

  /** The leader ring links exactly the first node of each group of `q`. */
  ghost predicate LeadersLinked(m: Links, q: Queue<Addr>) {
    LinkedAs(m, q, Leaders(q, None))
  }

  /** Memory `m` holds the list `q` at `head`. */
  ghost predicate ListOk(m: Links, head: Addr, q: Queue<Addr>) {
    && Apart(head, q)
    && Sorted(q)
    && Ring(m, NodeRing(head, q))
    && LeadersLinked(m, q)
  }

  /** No node changed its priority since it was queued. */
  ghost predicate KeysCurrent(prio: map<Addr, int>, q: Queue<Addr>) {
    forall i :: 0 <= i < |q| ==> q[i].node in prio && prio[q[i].node] == q[i].key
  }

  lemma LeaderAt(q: Queue<Addr>, j: nat)
    requires j < |Leaders(q, None)|
    ensures exists i :: 0 <= i < |q| && q[i].node == Leaders(q, None)[j]
  {
    LeadersFrom(q, None);
    assert Leaders(q, None)[j] in Leaders(q, None);
  }

  lemma NodeRingInsert(head: Addr, q: Queue<Addr>, p: nat, e: Entry<Addr>)
    requires p <= |q|
    ensures NodeRing(head, InsertAt(q, p, e)) == InsertAt(NodeRing(head, q), p + 1, NodeLink(e.node))
  {
  }

  lemma NodeRingRemove(head: Addr, q: Queue<Addr>, k: nat)
    requires k < |q|
    ensures NodeRing(head, RemoveAt(q, k)) == RemoveAt(NodeRing(head, q), k + 1)
  {
  }

  /** Writing node links and the head keeps the leader ring. */
  lemma LeadersFrame(m: Links, m': Links, q: Queue<Addr>)
    requires LeadersLinked(m, q)
    requires forall i :: 0 <= i < |q| && PrioLink(q[i].node) in m.next ==>
                           PrioLink(q[i].node) in m'.next && m'.next[PrioLink(q[i].node)] == m.next[PrioLink(q[i].node)]
    requires forall i :: 0 <= i < |q| && PrioLink(q[i].node) in m.prev ==>
                           PrioLink(q[i].node) in m'.prev && m'.prev[PrioLink(q[i].node)] == m.prev[PrioLink(q[i].node)]
    ensures LeadersLinked(m', q)
  {
    var r := LeadRing(Leaders(q, None));
    forall a | a in r
      ensures exists i :: 0 <= i < |q| && PrioLink(q[i].node) == a
    {
      var j :| 0 <= j < |r| && r[j] == a;
      LeaderAt(q, j);
    }
    RingFrame(m, m', r);
  }

  /** The list only depends on the links of the head and of its nodes. */
  lemma ListFrame(m: Links, m': Links, head: Addr, q: Queue<Addr>, node: Addr)
    requires ListOk(m, head, q) && Outside(head, q, node)
    requires forall a :: a in m.next && a != PrioLink(node) && a != NodeLink(node) ==>
             a in m'.next &&
             m'.next[a] == m.next[a]
    requires forall a :: a in m.prev && a != PrioLink(node) && a != NodeLink(node) ==>
             a in m'.prev &&
             m'.prev[a] == m.prev[a]
    ensures ListOk(m', head, q)
  {
    assert forall i :: 0 <= i < |q| ==> Disjoint(q[i].node, node);
    RingFrame(m, m', NodeRing(head, q));
    LeadersFrame(m, m', q);
  }

  /** A node is not embedded in another one, nor in the head. */
  lemma NotInRings(head: Addr, q: Queue<Addr>, node: Addr)
    requires Outside(head, q, node)
    ensures PrioLink(node) !in NodeRing(head, q) && NodeLink(node) !in NodeRing(head, q)
    ensures PrioLink(node) !in LeadRing(Leaders(q, None)) && NodeLink(node) !in LeadRing(Leaders(q, None))
    ensures node !in Leaders(q, None)
  {
    assert forall i :: 0 <= i < |q| ==> Disjoint(q[i].node, node);
    forall j | 0 <= j < |Leaders(q, None)|
      ensures Disjoint(Leaders(q, None)[j], node)
    {
      LeaderAt(q, j);
    }
  }

  /** No node's leader link is on the node ring. */
  lemma NodeLinksApart(head: Addr, q: Queue<Addr>)
    requires Apart(head, q)
    ensures forall i, j :: 0 <= i < |q| && 0 <= j < |q| ==> PrioLink(q[i].node) != NodeLink(q[j].node)
    ensures forall i :: 0 <= i < |q| ==> PrioLink(q[i].node) != head
  {
    forall i, j | 0 <= i < |q| && 0 <= j < |q|
      ensures PrioLink(q[i].node) != NodeLink(q[j].node)
    {
      if i < j {
        assert Disjoint(q[i].node, q[j].node);
      } else if j < i {
        assert Disjoint(q[j].node, q[i].node);
      }
    }
  }

  lemma PrioLinkOff(head: Addr, q: Queue<Addr>, k: nat)
    requires Apart(head, q) && k < |q|
    ensures PrioLink(q[k].node) !in NodeRing(head, q)
  {
    NodeLinksApart(head, q);
  }

  /** The leader ring of the nodes `P` and the node ring of `q` share no link. */
  ghost predicate RingsApart(head: Addr, q: Queue<Addr>, P: seq<Addr>) {
    forall j :: 0 <= j < |P| ==> PrioLink(P[j]) !in NodeRing(head, q)
  }

  lemma LeadersApart(head: Addr, q: Queue<Addr>)
    requires Apart(head, q)
    ensures RingsApart(head, q, Leaders(q, None))
  {
    forall j | 0 <= j < |Leaders(q, None)|
      ensures PrioLink(Leaders(q, None)[j]) !in NodeRing(head, q)
    {
      LeaderAt(q, j);
      var i :| 0 <= i < |q| && q[i].node == Leaders(q, None)[j];
      PrioLinkOff(head, q, i);
    }
  }

  lemma RemovedApart(head: Addr, q: Queue<Addr>, k: nat)
    requires Apart(head, q) && k < |q|
    ensures Apart(head, RemoveAt(q, k)) && Outside(head, RemoveAt(q, k), q[k].node)
    ensures RingsApart(head, q, Leaders(RemoveAt(q, k), None))
  {
    var q' := RemoveAt(q, k);
    assert forall i :: 0 <= i < |q'| ==> q'[i] == q[if i < k then i else i + 1];
    assert forall i :: 0 <= i < |q| && i != k ==> Disjoint(q[i].node, q[k].node) || Disjoint(q[k].node, q[i].node);
    forall j | 0 <= j < |Leaders(q', None)|
      ensures PrioLink(Leaders(q', None)[j]) !in NodeRing(head, q)
    {
      LeaderAt(q', j);
      var i :| 0 <= i < |q'| && q'[i].node == Leaders(q', None)[j];
      PrioLinkOff(head, q, if i < k then i else i + 1);
    }
  }

  lemma QueuedApart(head: Addr, q: Queue<Addr>, node: Addr, prio: int)
    requires Apart(head, q) && Outside(head, q, node)
    ensures Apart(head, Queued(q, node, prio))
  {
    var q', p := Queued(q, node, prio), ScanPos(q, prio);
    forall i, j | 0 <= i < j < |q'|
      ensures Disjoint(q'[i].node, q'[j].node)
    {
      if i == p {
        assert Disjoint(q[j - 1].node, node);
      } else if j == p {
        assert Disjoint(q[i].node, node);
      } else {
        assert Disjoint(q[if i < p then i else i - 1].node, q[if j < p then j else j - 1].node);
      }
    }
  }

  lemma LeadRingInsert(P: seq<Addr>, j: nat, node: Addr)
    requires j <= |P|
    ensures LeadRing(InsertAt(P, j, node)) == InsertAt(LeadRing(P), j, PrioLink(node))
  {
  }

  lemma LeadRingRemove(P: seq<Addr>, j: nat)
    requires j < |P|
    ensures LeadRing(RemoveAt(P, j)) == RemoveAt(LeadRing(P), j)
  {
  }

  lemma InsertMembers(P: seq<Addr>, j: nat, node: Addr)
    requires j <= |P|
    ensures forall x :: x in InsertAt(P, j, node) <==> x in P || x == node
  {
    assert P == P[..j] + P[j..];
  }

  lemma RemoveMembers(P: seq<Addr>, j: nat)
    requires j < |P|
    ensures forall x :: x in P ==> x in RemoveAt(P, j) || x == P[j]
  {
    assert P == P[..j] + [P[j]] + P[j + 1..];
  }

  /** Linking into the node ring keeps the leader ring. */
  lemma NodeWriteKeepsLeaders(m: Links, m': Links, head: Addr, q: Queue<Addr>, link: Addr, prev: Addr, next: Addr)
    requires LeadersLinked(m, q) && Apart(head, q)
    requires m' == Between(m, link, prev, next)
    requires link in NodeRing(head, q) && prev in NodeRing(head, q) && next in NodeRing(head, q)
    ensures LeadersLinked(m', q)
  {
    NodeLinksApart(head, q);
    assert forall i :: 0 <= i < |q| ==> PrioLink(q[i].node) !in NodeRing(head, q);
    LeadersFrame(m, m', q);
  }

  /** `x` enters the leader ring at `j`. */
  lemma Promoted(m: Links, m': Links, q: Queue<Addr>, P: seq<Addr>, j: nat, x: Addr)
    requires LinkedAs(m, q, P) && P != [] && j <= |P|
    requires Ring(m', InsertAt(LeadRing(P), j, PrioLink(x)))
    requires m' == Between(m, PrioLink(x), PrioLink(P[if j == 0 then |P| - 1 else j - 1]),
                           PrioLink(P[if j == |P| then 0 else j]))
    ensures LinkedAs(m', q, InsertAt(P, j, x))
  {
    var prev, next := P[if j == 0 then |P| - 1 else j - 1], P[if j == |P| then 0 else j];
    LeadRingInsert(P, j, x);
    InsertMembers(P, j, x);
    assert prev in P && next in P;
    forall i | 0 <= i < |q| && q[i].node !in InsertAt(P, j, x)
      ensures SelfLinked(m', PrioLink(q[i].node))
    {
      BetweenFrame(m, PrioLink(x), PrioLink(prev), PrioLink(next), PrioLink(q[i].node));
    }
  }

  /** `P[j]` leaves the leader ring and the queue. */
  lemma Demoted(m: Links, m': Links, q: Queue<Addr>, P: seq<Addr>, j: nat, k: nat)
    requires LinkedAs(m, q, P) && j < |P| && k < |q| && q[k].node == P[j]
    requires forall i :: 0 <= i < |q| && i != k ==> q[i].node != P[j]
    requires Ring(m', RemoveAt(LeadRing(P), j))
    requires var l := PrioLink(P[j]); l in m.prev && l in m.next && m' == Reset(Bridged(m, m.prev[l], m.next[l]), l)
    ensures LinkedAs(m', RemoveAt(q, k), RemoveAt(P, j))
  {
    LeadRingRemove(P, j);
    RemoveMembers(P, j);
    forall i | 0 <= i < |q| && i != k && q[i].node !in RemoveAt(P, j)
      ensures SelfLinked(m', PrioLink(q[i].node))
    {
      RemoveFrame(m, LeadRing(P), j, PrioLink(q[i].node));
    }
  }

  /** One more node, leader or on its own, in the queue. */
  lemma Extended(m: Links, q: Queue<Addr>, P: seq<Addr>, p: nat, e: Entry<Addr>)
    requires LinkedAs(m, q, P) && p <= |q|
    requires e.node in P || SelfLinked(m, PrioLink(e.node))
    ensures LinkedAs(m, InsertAt(q, p, e), P)
  {
    var q' := InsertAt(q, p, e);
    assert forall i :: 0 <= i < |q'| && i != p ==> q'[i] == q[if i < p then i else i - 1];
  }

  /** Taking a node off the node ring keeps the leader rings. */
  lemma NodeRemoveKeepsLeaders(m: Links, head: Addr, q: Queue<Addr>, k: nat, q': Queue<Addr>, P: seq<Addr>)
    requires Apart(head, q) && Ring(m, NodeRing(head, q)) && k < |q| && q' == RemoveAt(q, k)
    requires LinkedAs(m, q', P) && RingsApart(head, q, P) && SelfLinked(m, PrioLink(q[k].node))
    ensures var l := NodeLink(q[k].node);
            && l in m.prev && l in m.next
            && LinkedAs(Reset(Bridged(m, m.prev[l], m.next[l]), l), q', P)
            && SelfLinked(Reset(Bridged(m, m.prev[l], m.next[l]), l), PrioLink(q[k].node))
  {
    var s := NodeRing(head, q);
    assert s[k + 1] == NodeLink(q[k].node);
    RemoveApart(m, s, k + 1, LeadRing(P));
    PrioLinkOff(head, q, k);
    RemoveFrame(m, s, k + 1, PrioLink(q[k].node));
    forall i | 0 <= i < |q'| && q'[i].node !in P
      ensures SelfLinked(Reset(Bridged(m, m.prev[s[k + 1]], m.next[s[k + 1]]), s[k + 1]), PrioLink(q'[i].node))
    {
      assert q'[i] == q[if i < k then i else i + 1];
      PrioLinkOff(head, q, if i < k then i else i + 1);
      RemoveFrame(m, s, k + 1, PrioLink(q'[i].node));
    }
  }

  /** `plist_remove` half way: the node is off the leader ring, but still on the node ring. */
  ghost predicate OffLeadRing(m: Links, head: Addr, q: Queue<Addr>, k: nat)
    requires k < |q|
  {
    && Apart(head, q) && Sorted(q) && Ring(m, NodeRing(head, q))
    && LeadersLinked(m, RemoveAt(q, k)) && SelfLinked(m, PrioLink(q[k].node))
  }

  lemma OffNodeRing(m: Links, m': Links, head: Addr, q: Queue<Addr>, k: nat)
    requires k < |q| && OffLeadRing(m, head, q, k)
    requires NodeLink(q[k].node) in m.prev && NodeLink(q[k].node) in m.next
    requires var l := NodeLink(q[k].node); m' == Reset(Bridged(m, m.prev[l], m.next[l]), l)
    requires Ring(m', RemoveAt(NodeRing(head, q), k + 1)) && SelfLinked(m', NodeLink(q[k].node))
    ensures ListOk(m', head, RemoveAt(q, k)) && Outside(head, RemoveAt(q, k), q[k].node) && Detached(m', q[k].node)
  {
    RemovedApart(head, q, k);
    NodeRemoveKeepsLeaders(m, head, q, k, RemoveAt(q, k), Leaders(RemoveAt(q, k), None));
    NodeRingRemove(head, q, k);
    RemovedSorted(q, k);
  }

  lemma QueuedCurrent(prio: map<Addr, int>, q: Queue<Addr>, node: Addr)
    requires KeysCurrent(prio, q) && node in prio
    ensures KeysCurrent(prio, Queued(q, node, prio[node]))
  {
    hide ScanPos;
  }

  lemma RemovedCurrent(prio: map<Addr, int>, q: Queue<Addr>, k: nat)
    requires KeysCurrent(prio, q) && k < |q|
    ensures KeysCurrent(prio, RemoveAt(q, k))
  {
  }

  lemma RemovedSorted(q: Queue<Addr>, k: nat)
    requires Sorted(q) && k < |q|
    ensures Sorted(RemoveAt(q, k))
  {
  }

  /** A node that joins the last group before it, or starts the list, changes no leader ring. */
  lemma FollowerLinked(m: Links, q: Queue<Addr>, node: Addr, prio: int)
    requires LeadersLinked(m, q) && Sorted(q) && SelfLinked(m, PrioLink(node))
    requires q == [] || LastKey(q[..ScanPos(q, prio)], None) == Some(prio)
    ensures LeadersLinked(m, Queued(q, node, prio))
  {
    LeadersQueued(q, node, prio);
    Extended(m, q, Leaders(q, None), ScanPos(q, prio), Entry(node, prio));
    assert LeadRing([node]) == [PrioLink(node)];
  }

  /** The leader ring with `node` at `j` is the one of the queue with `node`. */
  lemma GroupOpened(m: Links, q: Queue<Addr>, node: Addr, prio: int, j: nat)
    requires Sorted(q) && j == |Leaders(q[..ScanPos(q, prio)], None)| <= |Leaders(q, None)|
    requires LastKey(q[..ScanPos(q, prio)], None) != Some(prio)
    requires LinkedAs(m, q, InsertAt(Leaders(q, None), j, node))
    ensures LeadersLinked(m, Queued(q, node, prio))
  {
    LeadersQueued(q, node, prio);
    assert InsertAt(Leaders(q, None), j, node)[j] == node;
    Extended(m, q, InsertAt(Leaders(q, None), j, node), ScanPos(q, prio), Entry(node, prio));
  }

  lemma DistinctAt(head: Addr, q: Queue<Addr>, k: nat)
    requires Apart(head, q) && k < |q|
    ensures forall i :: 0 <= i < |q| && i != k ==> q[i].node != q[k].node
    ensures DistinctNodes(q)
  {
    forall i, j | 0 <= i < j < |q|
      ensures q[i].node != q[j].node
    {
      assert Disjoint(q[i].node, q[j].node);
    }
  }

  lemma InsertedForRemoved<T>(s: seq<T>, j: nat, x: T)
    requires j < |s|
    ensures RemoveAt(InsertAt(s, j + 1, x), j) == s[j := x]
  {
  }

  /** Where a leader stands on the leader ring, and what is left when it goes: the next node in
      its place if that follows it, one leader less otherwise. */
  lemma LeaderPlace(head: Addr, q: Queue<Addr>, k: nat)
    requires Apart(head, q) && Sorted(q) && k < |q| && q[k].node in Leaders(q, None)
    ensures var P, j := Leaders(q, None), |Leaders(q[..k], None)|;
            && j < |P| && P[j] == q[k].node
            && Leaders(RemoveAt(q, k), None)
               == if k + 1 < |q| && q[k + 1].node !in P then RemoveAt(InsertAt(P, j + 1, q[k + 1].node), j)
                  else RemoveAt(P, j)
  {
    hide Leaders, Apart, Sorted, InsertAt, RemoveAt;
    DistinctAt(head, q, k);
    LeadersAreFirsts(q, k);
    if k + 1 < |q| {
      LeadersAreFirsts(q, k + 1);
    }
    assert LastKey(q[..k], None) != Some(q[k].key);
    if k + 1 < |q| && q[k + 1].key == q[k].key {
      LeaderSucceeded(q, k);
      InsertedForRemoved(Leaders(q, None), |Leaders(q[..k], None)|, q[k + 1].node);
    } else {
      GroupRemoved(q, k);
    }
  }

  /** Whether `plist_remove` finds the node alone on its leader ring. */
  lemma AloneOnLeadRing(m: Links, q: Queue<Addr>, P: seq<Addr>, k: nat)
    requires LinkedAs(m, q, P) && k < |q|
    ensures var l := PrioLink(q[k].node);
            && l in m.next
            && (m.next[l] == l <==> (q[k].node !in P || |P| == 1))
  {
    if q[k].node in P {
      var j :| 0 <= j < |P| && P[j] == q[k].node;
      EmptyIffAlone(m, LeadRing(P), j);
    }
  }

  /** What `plist_remove` leaves of a leader ring it did not have to touch. */
  lemma UntouchedLeaders(m: Links, head: Addr, q: Queue<Addr>, k: nat)
    requires ListOk(m, head, q) && k < |q|
    requires q[k].node !in Leaders(q, None) || |Leaders(q, None)| == 1
    ensures LeadersLinked(m, RemoveAt(q, k)) && SelfLinked(m, PrioLink(q[k].node))
  {
    DistinctAt(head, q, k);
    LeadersAreFirsts(q, k);
    if q[k].node !in Leaders(q, None) {
      FollowerRemoved(q, k);
    } else {
      LoneLeader(m, q, k);
    }
  }

  /** The only leader goes: its successor, a ring of its own already, leads alone. */
  lemma LoneLeader(m: Links, q: Queue<Addr>, k: nat)
    requires LeadersLinked(m, q) && Sorted(q) && DistinctNodes(q) && k < |q|
    requires q[k].node in Leaders(q, None) && |Leaders(q, None)| == 1
    ensures LeadersLinked(m, RemoveAt(q, k)) && SelfLinked(m, PrioLink(q[k].node))
  {
    var P := Leaders(q, None);
    assert P == [q[k].node];
    assert LeadRing(P) == [PrioLink(q[k].node)];
    LeadersAreFirsts(q, k);
    if k + 1 < |q| && q[k + 1].key == q[k].key {
      LeaderSucceeded(q, k);
      assert q[k + 1].node !in P;
      LoneRing(m, RemoveAt(q, k), q[k + 1].node);
    } else {
      GroupRemoved(q, k);
      assert RemoveAt(P, 0) == [] && LeadRing([]) == [];
    }
  }

  lemma LoneRing(m: Links, q: Queue<Addr>, x: Addr)
    requires forall i :: 0 <= i < |q| ==> SelfLinked(m, PrioLink(q[i].node))
    requires SelfLinked(m, PrioLink(x))
    ensures LinkedAs(m, q, [x])
  {
    assert LeadRing([x]) == [PrioLink(x)];
  }

  lemma DistinctNodesOf(head: Addr, q: Queue<Addr>)
    requires Apart(head, q)
    ensures DistinctNodes(q)
  {
    if q != [] {
      DistinctAt(head, q, 0);
    }
  }

  lemma ListFacts(m: Links, head: Addr, q: Queue<Addr>)
    requires ListOk(m, head, q)
    ensures DistinctNodes(q) && forall k :: 0 < k <= |q| ==> NodeRing(head, q)[k] != head
  {
    DistinctNodesOf(head, q);
    forall k | 0 < k <= |q|
      ensures NodeRing(head, q)[k] != head
    {
      HeadIsNoNode(head, q, k - 1);
    }
  }

  lemma HeadIsNoNode(head: Addr, q: Queue<Addr>, k: nat)
    requires Apart(head, q) && k < |q|
    ensures NodeRing(head, q)[k + 1] != head
  {
  }

  /** Re-basing moves no link. */
  lemma RebasedOk(m: Links, head: Addr, q: Queue<Addr>, base: int)
    requires ListOk(m, head, q)
    ensures ListOk(m, head, Rebased(q, base))
  {
    var r := Rebased(q, base);
    LeadersRebased(q, base, None);
    assert NodeRing(head, r) == NodeRing(head, q);
  }

  // --- nodes that are on no list

  /** A node that is linked to itself, by writes to its own fields. */
  lemma NodeReset(m: Links, head: Addr, q: Queue<Addr>, node: Addr)
    requires Outside(head, q, node)
    ensures var m' := Reset(Reset(m, PrioLink(node)), NodeLink(node));
            Detached(m', node) && OthersKept(m, m', head, q, node)
  {
  }

  /** Every node that was on no list, and is not `node`, is still linked to itself on both rings. */
  ghost predicate OthersKept(m: Links, m': Links, head: Addr, q: Queue<Addr>, node: Addr) {
    forall n :: Outside(head, q, n) && Detached(m, n) && Disjoint(n, node) ==> Detached(m', n)
  }

  ghost predicate Members(q: Queue<Addr>, P: seq<Addr>) {
    forall x :: x in P ==> exists i :: 0 <= i < |q| && q[i].node == x
  }

  /** `a` is a link of the two rings or of `node`. */
  ghost predicate OwnLink(head: Addr, q: Queue<Addr>, P: seq<Addr>, node: Addr, a: Addr) {
    a in NodeRing(head, q) || a in LeadRing(P) || a == PrioLink(node) || a == NodeLink(node)
  }

  lemma NotOwn(head: Addr, q: Queue<Addr>, P: seq<Addr>, node: Addr, n: Addr)
    requires Members(q, P) && Outside(head, q, n) && Disjoint(n, node)
    ensures !OwnLink(head, q, P, node, PrioLink(n)) && !OwnLink(head, q, P, node, NodeLink(n))
  {
    var nodes, leads := NodeRing(head, q), LeadRing(P);
    forall k | 0 <= k < |nodes|
      ensures nodes[k] != PrioLink(n) && nodes[k] != NodeLink(n)
    {
      if k > 0 {
        assert Disjoint(q[k - 1].node, n);
      }
    }
    forall j | 0 <= j < |leads|
      ensures leads[j] != PrioLink(n) && leads[j] != NodeLink(n)
    {
      assert P[j] in P;
      var i :| 0 <= i < |q| && q[i].node == P[j];
      assert Disjoint(q[i].node, n);
    }
  }

  lemma BetweenOthers(m: Links, head: Addr, q: Queue<Addr>, P: seq<Addr>, node: Addr, link: Addr, prev: Addr,
                      next: Addr)
    requires Members(q, P)
    requires OwnLink(head, q, P, node, link) && OwnLink(head, q, P, node, prev) && OwnLink(head, q, P, node, next)
    ensures OthersKept(m, Between(m, link, prev, next), head, q, node)
  {
    hide OwnLink, Members, Outside, Disjoint;
    forall n | Outside(head, q, n) && Detached(m, n) && Disjoint(n, node)
      ensures Detached(Between(m, link, prev, next), n)
    {
      NotOwn(head, q, P, node, n);
      BetweenFrame(m, link, prev, next, PrioLink(n));
      BetweenFrame(m, link, prev, next, NodeLink(n));
    }
  }

  lemma RemoveOthers(m: Links, head: Addr, q: Queue<Addr>, P: seq<Addr>, node: Addr, s: seq<Addr>, k: nat)
    requires Members(q, P) && Ring(m, s) && k < |s| && forall a :: a in s ==> OwnLink(head, q, P, node, a)
    ensures s[k] in m.prev && s[k] in m.next
    ensures OthersKept(m, Reset(Bridged(m, m.prev[s[k]], m.next[s[k]]), s[k]), head, q, node)
  {
    hide OwnLink, Members, Outside, Disjoint;
    Neighbours(m, s, k);
    forall n | Outside(head, q, n) && Detached(m, n) && Disjoint(n, node)
      ensures Detached(Reset(Bridged(m, m.prev[s[k]], m.next[s[k]]), s[k]), n)
    {
      NotOwn(head, q, P, node, n);
      RemoveFrame(m, s, k, PrioLink(n));
      RemoveFrame(m, s, k, NodeLink(n));
    }
  }

  lemma OthersSame(m: Links, head: Addr, q: Queue<Addr>, node: Addr)
    ensures OthersKept(m, m, head, q, node)
  {
  }

  lemma OthersTwice(m: Links, m1: Links, m2: Links, head: Addr, q: Queue<Addr>, node: Addr)
    requires OthersKept(m, m1, head, q, node) && OthersKept(m1, m2, head, q, node)
    ensures OthersKept(m, m2, head, q, node)
  {
  }

  /** A node outside a queue is outside what is left of it. */
  lemma OthersLess(m1: Links, m2: Links, head: Addr, q: Queue<Addr>, k: nat, node: Addr)
    requires k < |q| && OthersKept(m1, m2, head, RemoveAt(q, k), node)
    ensures OthersKept(m1, m2, head, q, node)
  {
    forall n | Outside(head, q, n)
      ensures Outside(head, RemoveAt(q, k), n)
    {
    }
  }

  /** Putting the `k`-th node of the queue behind `P[j]` on the leader ring. */
  lemma PromotedOthers(m: Links, head: Addr, q: Queue<Addr>, P: seq<Addr>, j: nat, k: nat)
    requires j < |P| && k < |q| && Members(q, P)
    ensures var next := PrioLink(P[if j + 1 == |P| then 0 else j + 1]);
            OthersKept(m, Between(m, PrioLink(q[k].node), PrioLink(P[j]), next), head, q, P[j])
  {
    var P' := P + [q[k].node];
    assert forall i :: 0 <= i < |P| ==> LeadRing(P')[i] == PrioLink(P[i]);
    assert LeadRing(P')[|P|] == PrioLink(q[k].node);
    hide OthersKept, LeadRing;
    BetweenOthers(m, head, q, P', P[j], PrioLink(q[k].node), PrioLink(P[j]),
                  PrioLink(P[if j + 1 == |P| then 0 else j + 1]));
  }

  /** Putting a node at position `p` of the node ring. */
  lemma LinkedOthers(m: Links, head: Addr, q: Queue<Addr>, node: Addr, p: nat)
    requires p <= |q|
    ensures var next := if p == |q| then head else NodeLink(q[p].node);
            OthersKept(m, Between(m, NodeLink(node), NodeRing(head, q)[p], next), head, q, node)
  {
    var next := if p == |q| then head else NodeLink(q[p].node);
    assert NodeRing(head, q)[if p == |q| then 0 else p + 1] == next;
    hide OthersKept;
    BetweenOthers(m, head, q, [], node, NodeLink(node), NodeRing(head, q)[p], next);
  }

  /** After the last step of an insertion memory holds the longer queue. */
  lemma NodeLinked(m: Links, head: Addr, q: Queue<Addr>, p: nat, e: Entry<Addr>)
    requires Apart(head, q) && Sorted(q) && Ring(m, NodeRing(head, q))
    requires p == ScanPos(q, e.key) && Outside(head, q, e.node) && LeadersLinked(m, Queued(q, e.node, e.key))
    ensures var next := if p == |q| then head else NodeLink(q[p].node);
            var m' := Between(m, NodeLink(e.node), NodeRing(head, q)[p], next);
            && next == NodeRing(head, q)[if p == |q| then 0 else p + 1] && NodeLink(e.node) !in NodeRing(head, q)
            && ListOk(m', head, Queued(q, e.node, e.key)) && OthersKept(m, m', head, q, e.node)
  {
    hide OthersKept;
    var next := if p == |q| then head else NodeLink(q[p].node);
    LinkedOthers(m, head, q, e.node, p);
    NotInRings(head, q, e.node);
    QueuedApart(head, q, e.node, e.key);
    QueuedSorted(q, e.node, e.key);
    BetweenRing(m, NodeRing(head, q), p + 1, NodeLink(e.node));
    NodeRingInsert(head, q, p, e);
    InsertMembers(NodeRing(head, q), p + 1, NodeLink(e.node));
    hide Ring, Outside, Sorted;
    NodeWriteKeepsLeaders(m, Between(m, NodeLink(e.node), NodeRing(head, q)[p], next), head, Queued(q, e.node, e.key),
                          NodeLink(e.node), NodeRing(head, q)[p], next);
  }

  /** What taking a node off the node ring does; on its own it is a ring of one. */
  lemma NodeUnlinked(m: Links, head: Addr, q: Queue<Addr>, node: Addr, k: nat)
    requires k <= |q| && (k < |q| ==> node == q[k].node)
    requires if k < |q| then OffLeadRing(m, head, q, k) else SelfLinked(m, NodeLink(node))
    ensures var ring, i := if k < |q| then NodeRing(head, q) else [NodeLink(node)], if k < |q| then k + 1 else 0;
            && Ring(m, ring) && ring[i] == NodeLink(node) && NodeLink(node) in m.prev && NodeLink(node) in m.next
    ensures var m' := Reset(Bridged(m, m.prev[NodeLink(node)], m.next[NodeLink(node)]), NodeLink(node));
            && OthersKept(m, m', head, q, node)
            && (if k == |q| then m' == m
                else ListOk(m', head, RemoveAt(q, k)) && Outside(head, RemoveAt(q, k), node) && Detached(m', node))
  {
    hide OthersKept, Apart, Sorted, LeadersLinked, ListOk, Detached, Outside;
    var ring := if k < |q| then NodeRing(head, q) else [NodeLink(node)];
    var i := if k < |q| then k + 1 else 0;
    hide Ring;
    AloneIsRing(m, NodeLink(node));
    RemovedRing(m, ring, i);
    RemoveOthers(m, head, q, [], node, ring, i);
    if k < |q| {
      OffNodeRing(m, Reset(Bridged(m, m.prev[NodeLink(node)], m.next[NodeLink(node)]), NodeLink(node)), head, q, k);
    }
  }

  lemma AloneIsRing(m: Links, a: Addr)
    ensures SelfLinked(m, a) ==> Ring(m, [a])
  {
  }

  lemma MoreMembers(q: Queue<Addr>, P: seq<Addr>, j: nat, k: nat)
    requires Members(q, P) && j <= |P| && k < |q|
    ensures Members(q, InsertAt(P, j, q[k].node))
    ensures forall head :: Apart(head, q) && RingsApart(head, q, P) ==> RingsApart(head, q, InsertAt(P, j, q[k].node))
  {
    InsertMembers(P, j, q[k].node);
    forall head | Apart(head, q) && RingsApart(head, q, P)
      ensures RingsApart(head, q, InsertAt(P, j, q[k].node))
    {
      PrioLinkOff(head, q, k);
    }
  }

  lemma LeadersMembers(q: Queue<Addr>)
    ensures Members(q, Leaders(q, None))
  {
    LeadersFrom(q, None);
  }

  lemma NodeEmptyIffOff(m: Links, head: Addr, q: Queue<Addr>, node: Addr)
    requires Ring(m, NodeRing(head, q)) && (Position(q, node) == |q| ==> Detached(m, node))
    ensures NodeLink(node) in m.next
    ensures m.next[NodeLink(node)] == NodeLink(node) <==> Position(q, node) == |q|
  {
    var k := Position(q, node);
    if k < |q| {
      PositionIsFirst(q, node);
      EmptyIffAlone(m, NodeRing(head, q), k + 1);
    }
  }

  class PList {
    const mem: Memory
    const head: Addr
    var prio: map<Addr, int>
    ghost var Q: Queue<Addr>

    /** `plist_head_init` */
    constructor (mem: Memory, head: Addr)
      modifies mem
      ensures this.mem == mem && this.head == head
      ensures mem.m == Reset(old(mem.m), head)
      ensures Valid() && Q == []
    {
      this.mem, this.head, Q := mem, head, [];
      new;
      mem.HeadInit(head);
    }

    ghost predicate Valid()
      reads this, mem
    {
      ListOk(mem.m, head, Q)
    }

    /** `plist_node_init` */
    method NodeInit(node: Addr, prio: int)
      requires Valid() && Outside(head, Q, node)
      modifies this`prio, mem
      ensures this.prio == old(this.prio)[node := prio]
      ensures mem.m == Reset(Reset(old(mem.m), PrioLink(node)), NodeLink(node))
      ensures Valid() && Detached(mem.m, node) && OthersKept(old(mem.m), mem.m, head, Q, node)
    {
      hide ListOk, OthersKept, Detached, Outside;
      this.prio := this.prio[node := prio];
      mem.HeadInit(PrioLink(node));
      mem.HeadInit(NodeLink(node));
      ListFrame(old(mem.m), mem.m, head, Q, node);
      NodeReset(old(mem.m), head, Q, node);
    }

    /** `plist_is_head_empty` */
    predicate IsEmpty()
      requires Valid()
      reads this, mem
      ensures IsEmpty() <==> Q == []
    {
      EmptyIffAlone(mem.m, NodeRing(head, Q), 0);
      mem.IsEmpty(head)
    }

    /** `plist_is_node_empty`: whether the node is on no list. */
    predicate IsNodeEmpty(node: Addr)
      requires Valid() && At(node, Position(Q, node))
      reads this, mem
      ensures IsNodeEmpty(node) <==> Position(Q, node) == |Q|
    {
      NodeEmptyIffOff(mem.m, head, Q, node);
      mem.IsEmpty(NodeLink(node))
    }

    /** `plist_first`; the address is computed back from the link. */
    function First(): (node: Addr)
      requires Valid() && Q != []
      reads this, mem
      ensures node == Q[0].node
    {
      Neighbours(mem.m, NodeRing(head, Q), 0);
      mem.m.next[head] - NODE_LINK
    }

    /** `plist_last` */
    function Last(): (node: Addr)
      requires Valid() && Q != []
      reads this, mem
      ensures node == Q[|Q| - 1].node
    {
      Neighbours(mem.m, NodeRing(head, Q), 0);
      mem.m.prev[head] - NODE_LINK
    }

    /** The node of the next link on the leader ring. */
    function NextLeader(node: Addr, ghost j: nat): (next: Addr)
      requires Valid() && j < |Leaders(Q, None)| && node == Leaders(Q, None)[j]
      reads this, mem
      ensures next == Leaders(Q, None)[if j + 1 < |Leaders(Q, None)| then j + 1 else 0]
    {
      Neighbours(mem.m, LeadRing(Leaders(Q, None)), j);
      mem.m.next[PrioLink(node)] - PRIO_LINK
    }

    /** The loop of `plist_add`: along the leaders to the first one of higher priority.  `p` is
        the place in the queue, `j` the number of groups passed. */
    method FindPlace(node: Addr) returns (next: Addr, iter: Addr, prev: Option<Addr>, ghost p: nat, ghost j: nat)
      requires Valid() && KeysCurrent(prio, Q) && Q != [] && node in prio
      ensures next == var s := ScanPos(Q, prio[node]); if s == |Q| then head else NodeLink(Q[s].node)
      ensures p == ScanPos(Q, prio[node]) && j == |Leaders(Q[..p], None)| <= |Leaders(Q, None)| &&
              Leaders(Q, None) != []
      ensures iter == Leaders(Q, None)[if j == |Leaders(Q, None)| then 0 else j]
      ensures prev == None <==> p == 0
      ensures prev != None ==> prev.value in prio && prio[prev.value] == Q[p - 1].key
    {
      next := head;
      FirstGroup(Q);
      var first := First();
      iter := first;
      prev := None;
      p, j := 0, 0;
      while true
        invariant GroupStart(Q, p, j) && iter == Q[p].node
        invariant prev == None <==> p == 0
        invariant prev != None ==> prev.value in prio && prio[prev.value] == Q[p - 1].key <= prio[node]
        decreases |Q| - p
      {
        if prio[node] < prio[iter] {
          next := NodeLink(iter);
          break;
        }
        prev := Some(iter);
        NextGroup(Q, p, j);
        iter := NextLeader(iter, j);
        p, j := GroupEnd(Q, p), j + 1;
        if iter == first {
          break;
        }
      }
      ScanPosUnique(Q, prio[node], p);
    }

    /** The last step of `plist_add` and `plist_requeue`: `node`, already leader or follower as
        the longer queue has it, goes to position `p` of the node ring. */
    method LinkNode(node: Addr, nextNode: Addr, ghost p: nat, ghost e: Entry<Addr>)
      requires Apart(head, Q) && Sorted(Q) && Ring(mem.m, NodeRing(head, Q))
      requires p == ScanPos(Q, e.key) && e.node == node && Outside(head, Q, node)
      requires LeadersLinked(mem.m, Queued(Q, node, e.key))
      requires nextNode == if p == |Q| then head else NodeLink(Q[p].node)
      modifies this`Q, mem
      ensures Valid() && Q == Queued(old(Q), node, e.key) && OthersKept(old(mem.m), mem.m, head, old(Q), node)
    {
      hide OthersKept, ListOk, Ring, Queued, Apart, Sorted, Outside, LeadersLinked;
      NodeLinked(mem.m, head, Q, p, e);
      mem.AddTail(NodeLink(node), nextNode, NodeRing(head, Q), p + 1);
      Q := Queued(Q, node, e.key);
    }

    /** `dlist_add_tail` on the leader ring: `node` enters it at `j`. */
    method EnterLeadRing(node: Addr, iter: Addr, ghost P: seq<Addr>, ghost j: nat)
      requires Ring(mem.m, NodeRing(head, Q)) && LinkedAs(mem.m, Q, P) && RingsApart(head, Q, P)
      requires P != [] && j <= |P| && iter == P[if j == |P| then 0 else j]
      requires node !in P && PrioLink(node) !in NodeRing(head, Q) && Members(Q, P)
      modifies mem
      ensures Ring(mem.m, NodeRing(head, Q)) && LinkedAs(mem.m, Q, InsertAt(P, j, node))
      ensures OthersKept(old(mem.m), mem.m, head, Q, node)
    {
      hide OthersKept, Members;
      ghost var prev := LeadRing(P)[if j == 0 then |P| - 1 else j - 1];
      BetweenOthers(mem.m, head, Q, P, node, PrioLink(node), prev, PrioLink(iter));
      mem.AddTail(PrioLink(node), PrioLink(iter), LeadRing(P), j);
      Promoted(old(mem.m), mem.m, Q, P, j, node);
      BetweenApart(old(mem.m), NodeRing(head, Q), PrioLink(node), prev, PrioLink(iter));
    }

    /** `node` opens a group of its own. */
    method OpenGroup(node: Addr, iter: Addr, ghost j: nat)
      requires Valid() && Q != [] && node in prio && Outside(head, Q, node)
      requires LastKey(Q[..ScanPos(Q, prio[node])], None) != Some(prio[node])
      requires j == |Leaders(Q[..ScanPos(Q, prio[node])], None)| <= |Leaders(Q, None)| && Leaders(Q, None) != []
      requires iter == Leaders(Q, None)[if j == |Leaders(Q, None)| then 0 else j]
      modifies mem
      ensures Ring(mem.m, NodeRing(head, Q)) && LeadersLinked(mem.m, Queued(Q, node, prio[node]))
      ensures OthersKept(old(mem.m), mem.m, head, Q, node)
    {
      hide OthersKept, Members;
      ghost var P := Leaders(Q, None);
      LeadersMembers(Q);
      NotInRings(head, Q, node);
      LeadersApart(head, Q);
      EnterLeadRing(node, iter, P, j);
      GroupOpened(mem.m, Q, node, prio[node], j);
    }

    /** The first half of `plist_add`: find the place and link the leader ring. */
    method LinkLeader(node: Addr) returns (nextNode: Addr, ghost p: nat)
      requires Valid() && KeysCurrent(prio, Q) && node in prio
      requires Outside(head, Q, node) && Detached(mem.m, node)
      modifies mem
      ensures p == ScanPos(Q, prio[node]) && nextNode == if p == |Q| then head else NodeLink(Q[p].node)
      ensures Ring(mem.m, NodeRing(head, Q)) && LeadersLinked(mem.m, Queued(Q, node, prio[node]))
      ensures OthersKept(old(mem.m), mem.m, head, Q, node)
    {
      hide OthersKept;
      OthersSame(mem.m, head, Q, node);
      nextNode, p := head, 0;
      if IsEmpty() {
        FollowerLinked(mem.m, Q, node, prio[node]);
      } else {
        ghost var j: nat;
        var iter, prev;
        nextNode, iter, prev, p, j := FindPlace(node);
        if prev == None || prio[prev.value] != prio[node] {
          OpenGroup(node, iter, j);
        } else {
          FollowerLinked(mem.m, Q, node, prio[node]);
        }
      }
    }

    /** `plist_add` inserts where a linear scan would: after every node of lower or equal
        priority. */
    method Add(node: Addr)
      requires Valid() && KeysCurrent(prio, Q) && node in prio
      requires Outside(head, Q, node) && Detached(mem.m, node)
      modifies this`Q, mem
      ensures Valid() && Q == Queued(old(Q), node, prio[node])
      ensures OthersKept(old(mem.m), mem.m, head, old(Q), node)
    {
      hide OthersKept;
      var nextNode;
      ghost var p;
      nextNode, p := LinkLeader(node);
      ghost var m1 := mem.m;
      LinkNode(node, nextNode, p, Entry(node, prio[node]));
      OthersTwice(old(mem.m), m1, mem.m, head, old(Q), node);
    }

    /** Whether the link after `node` is not the head. */
    predicate HasNext(node: Addr, ghost k: nat)
      requires Ring(mem.m, NodeRing(head, Q)) && k < |Q| && node == Q[k].node
      reads this, mem
      ensures HasNext(node, k) <==> k + 1 < |Q|
    {
      Neighbours(mem.m, NodeRing(head, Q), k + 1);
      mem.m.next[NodeLink(node)] != head
    }

    /** `plist_next` of a node that is not the last. */
    function NextNode(node: Addr, ghost k: nat): (next: Addr)
      requires Ring(mem.m, NodeRing(head, Q)) && k + 1 < |Q| && node == Q[k].node
      reads this, mem
      ensures next == Q[k + 1].node
    {
      Neighbours(mem.m, NodeRing(head, Q), k + 1);
      mem.m.next[NodeLink(node)] - NODE_LINK
    }

    /** `dlist_remove_init` on the leader ring. */
    method Demote(node: Addr, ghost P: seq<Addr>, ghost j: nat, ghost k: nat)
      requires Apart(head, Q) && Ring(mem.m, NodeRing(head, Q)) && LinkedAs(mem.m, Q, P) && RingsApart(head, Q, P)
      requires j < |P| && k < |Q| && node == Q[k].node == P[j] && Members(Q, P)
      modifies mem
      ensures Ring(mem.m, NodeRing(head, Q)) && LinkedAs(mem.m, RemoveAt(Q, k), RemoveAt(P, j))
      ensures SelfLinked(mem.m, PrioLink(node)) && OthersKept(old(mem.m), mem.m, head, Q, node)
    {
      hide OthersKept, Members;
      RemoveOthers(mem.m, head, Q, P, node, LeadRing(P), j);
      RemoveApart(mem.m, LeadRing(P), j, NodeRing(head, Q));
      DistinctAt(head, Q, k);
      mem.RemoveInit(PrioLink(node), LeadRing(P), j);
      Demoted(old(mem.m), mem.m, Q, P, j, k);
    }

    /** `dlist_add` on the leader ring: `next` comes to lead, right behind `P[j]`. */
    method Promote(next: Addr, node: Addr, ghost P: seq<Addr>, ghost j: nat, ghost k: nat)
      requires Apart(head, Q) && Ring(mem.m, NodeRing(head, Q)) && LinkedAs(mem.m, Q, P) && RingsApart(head, Q, P)
      requires j < |P| && node == P[j] && k < |Q| && next == Q[k].node && next !in P && Members(Q, P)
      modifies mem
      ensures Ring(mem.m, NodeRing(head, Q)) && LinkedAs(mem.m, Q, InsertAt(P, j + 1, next))
      ensures OthersKept(old(mem.m), mem.m, head, Q, node)
    {
      hide OthersKept;
      PromotedOthers(mem.m, head, Q, P, j, k);
      PrioLinkOff(head, Q, k);
      assert PrioLink(next) !in LeadRing(P);
      assert PrioLink(node) == LeadRing(P)[j];
      mem.Add(PrioLink(next), PrioLink(node), LeadRing(P), j);
      Promoted(old(mem.m), mem.m, Q, P, j + 1, next);
      BetweenApart(old(mem.m), NodeRing(head, Q), PrioLink(next), PrioLink(node),
                   LeadRing(P)[if j + 1 == |P| then 0 else j + 1]);
    }

    /** The first half of `plist_remove`, for a node with company on the leader ring: the next
        node, if it is a follower, comes to lead. */
    method PassLead(node: Addr, ghost k: nat, ghost P: seq<Addr>, ghost j: nat) returns (ghost P1: seq<Addr>)
      requires Apart(head, Q) && Ring(mem.m, NodeRing(head, Q)) && LinkedAs(mem.m, Q, P) && RingsApart(head, Q, P)
      requires k < |Q| && j < |P| && node == Q[k].node == P[j] && |P| > 1 && Members(Q, P)
      modifies mem
      ensures OthersKept(old(mem.m), mem.m, head, Q, node) && Members(Q, P1)
      ensures Ring(mem.m, NodeRing(head, Q)) && LinkedAs(mem.m, Q, P1) && RingsApart(head, Q, P1)
      ensures P1 == if k + 1 < |Q| && Q[k + 1].node !in P then InsertAt(P, j + 1, Q[k + 1].node) else P
    {
      hide OthersKept, Members, RingsApart, Apart;
      P1 := P;
      OthersSame(mem.m, head, Q, node);
      if HasNext(node, k) {
        var next := NextNode(node, k);
        AloneOnLeadRing(mem.m, Q, P, k + 1);
        if mem.IsEmpty(PrioLink(next)) {
          Promote(next, node, P, j, k + 1);
          P1 := InsertAt(P, j + 1, next);
          MoreMembers(Q, P, j + 1, k + 1);
        }
      }
    }

    /** The node's place in the queue, or off the list altogether. */
    ghost predicate At(node: Addr, k: nat)
      reads this, mem
    {
      && k == Position(Q, node)
      && (k == |Q| ==> Outside(head, Q, node) && Detached(mem.m, node))
    }

    /** `node` leaves a leader ring it shares with others. */
    method DropLeader(node: Addr, ghost k: nat)
      requires Valid() && k < |Q| && node == Q[k].node
      requires node in Leaders(Q, None) && |Leaders(Q, None)| > 1
      modifies mem
      ensures OffLeadRing(mem.m, head, Q, k) && OthersKept(old(mem.m), mem.m, head, Q, node)
    {
      hide OthersKept, Members;
      LeadersMembers(Q);
      ghost var P, j := Leaders(Q, None), |Leaders(Q[..k], None)|;
      LeadersApart(head, Q);
      LeaderPlace(head, Q, k);
      ghost var P1 := PassLead(node, k, P, j);
      ghost var m1 := mem.m;
      Demote(node, P1, j, k);
      OthersTwice(old(mem.m), m1, mem.m, head, Q, node);
    }

    /** The first half of `plist_remove`: `node` leaves the leader ring, if it is on one. */
    method UnlinkLeader(node: Addr, ghost k: nat)
      requires Valid() && At(node, k)
      modifies mem
      ensures k < |Q| ==> OffLeadRing(mem.m, head, Q, k)
      ensures SelfLinked(mem.m, PrioLink(node))
      ensures k == |Q| ==> mem.m == old(mem.m)
      ensures OthersKept(old(mem.m), mem.m, head, Q, node)
    {
      hide OthersKept;
      OthersSame(mem.m, head, Q, node);
      if k < |Q| {
        AloneOnLeadRing(mem.m, Q, Leaders(Q, None), k);
      }
      if !mem.IsEmpty(PrioLink(node)) {
        DropLeader(node, k);
      } else if k < |Q| {
        UntouchedLeaders(mem.m, head, Q, k);
      }
    }

    /** The second half of `plist_remove`: `node` leaves the node ring, if it is on one. */
    method UnlinkNode(node: Addr, ghost k: nat)
      requires k == Position(Q, node) && SelfLinked(mem.m, PrioLink(node))
      requires if k < |Q| then OffLeadRing(mem.m, head, Q, k) else SelfLinked(mem.m, NodeLink(node))
      modifies this`Q, mem
      ensures k < old(|Q|) ==> Valid() && Outside(head, Q, node) && Detached(mem.m, node)
      ensures k == old(|Q|) ==> mem.m == old(mem.m)
      ensures Q == Removed(old(Q), node) && OthersKept(old(mem.m), mem.m, head, old(Q), node)
    {
      hide OthersKept, ListOk, Ring, Outside, Detached;
      PositionIsFirst(Q, node);
      hide Position, OffLeadRing, SelfLinked;
      NodeUnlinked(mem.m, head, Q, node, k);
      mem.RemoveInit(NodeLink(node), if k < |Q| then NodeRing(head, Q) else [NodeLink(node)],
                     if k < |Q| then k + 1 else 0);
      Q := Removed(Q, node);
    }

    /** `plist_remove`.  It never reads a priority, so it works whatever became of the node's own
        since it was queued; and a node off the list stays as it is. */
    method Remove(node: Addr)
      requires Valid() && At(node, Position(Q, node))
      modifies this`Q, mem
      ensures Valid() && Q == Removed(old(Q), node)
      ensures Outside(head, Q, node) && Detached(mem.m, node)
      ensures Position(old(Q), node) == |old(Q)| ==> mem.m == old(mem.m)
      ensures OthersKept(old(mem.m), mem.m, head, old(Q), node)
    {
      hide OthersKept;
      ghost var k := Position(Q, node);
      UnlinkLeader(node, k);
      ghost var m1 := mem.m;
      UnlinkNode(node, k);
      OthersTwice(old(mem.m), m1, mem.m, head, old(Q), node);
    }

    /** The loop of `plist_requeue`: past every node of the same priority. */
    method FindGroupEnd(node: Addr, start: Addr, ghost k: nat) returns (nextNode: Addr, ghost p: nat)
      requires Valid() && KeysCurrent(prio, Q) && node in prio
      requires k < |Q| && start == Q[k].node && Q[k].key == prio[node]
      ensures nextNode == var s := ScanPos(Q, prio[node]); if s == |Q| then head else NodeLink(Q[s].node)
      ensures p == ScanPos(Q, prio[node]) > 0 && Q[p - 1].key == prio[node]
    {
      nextNode := head;
      var iter := start;
      p := k;
      while HasNext(iter, p)
        invariant p < |Q| && iter == Q[p].node && Q[p].key == prio[node]
        decreases |Q| - p
      {
        iter := NextNode(iter, p);
        if prio[node] != prio[iter] {
          nextNode := NodeLink(iter);
          break;
        }
        p := p + 1;
      }
      p := p + 1;
      ScanPosUnique(Q, prio[node], p);
    }

    /** The end of `plist_requeue`: `node` joins the group of `start` at its end. */
    method Rejoin(node: Addr, start: Addr, ghost k: nat)
      requires Valid() && KeysCurrent(prio, Q) && node in prio
      requires Outside(head, Q, node) && Detached(mem.m, node)
      requires k < |Q| && start == Q[k].node && Q[k].key == prio[node]
      modifies this`Q, mem
      ensures Valid() && Q == Queued(old(Q), node, prio[node]) && OthersKept(old(mem.m), mem.m, head, old(Q), node)
    {
      hide OthersKept;
      var nextNode;
      ghost var p;
      nextNode, p := FindGroupEnd(node, start, k);
      FollowerLinked(mem.m, Q, node, prio[node]);
      LinkNode(node, nextNode, p, Entry(node, prio[node]));
    }

    /** The tests `plist_requeue` starts with: no node of the same priority follows. */
    predicate EndsGroup(node: Addr, ghost k: nat)
      requires Valid() && KeysCurrent(prio, Q) && k < |Q| && node == Q[k].node
      reads this, mem
      ensures EndsGroup(node, k) <==> k + 1 == |Q| || Q[k].key != Q[k + 1].key
    {
      DistinctAt(head, Q, k);
      node == Last() || prio[node] != prio[NextNode(node, k)]
    }

    /** `plist_requeue` is remove followed by add. */
    method Requeue(node: Addr)
      requires Valid() && KeysCurrent(prio, Q) && Position(Q, node) < |Q|
      modifies this`Q, mem
      ensures Valid() && Q == Queued(Removed(old(Q), node), node, prio[node])
      ensures OthersKept(old(mem.m), mem.m, head, old(Q), node)
    {
      hide OthersKept;
      OthersSame(mem.m, head, Q, node);
      ghost var k := Position(Q, node);
      if EndsGroup(node, k) {
        DistinctAt(head, Q, k);
        LastOfGroup(Q, k);
        return;
      }
      var iter := NextNode(node, k);
      RemovedCurrent(prio, Q, k);
      Remove(node);
      ghost var m1 := mem.m;
      Rejoin(node, iter, k);
      OthersLess(m1, mem.m, head, old(Q), k, node);
      OthersTwice(old(mem.m), m1, mem.m, head, old(Q), node);
    }

    /** The loop of `sched_handler`: every queued priority goes down by `base`, in place. */
    method Rebase(base: int)
      requires Valid() && KeysCurrent(prio, Q)
      modifies this`prio, this`Q
      ensures Valid() && KeysCurrent(prio, Q) && Q == Rebased(old(Q), base)
      ensures forall n :: n in old(prio) ==> n in prio
    {
      ghost var k := 0;
      ghost var q := Rebased(Q, base);
      hide ListOk;
      ListFacts(mem.m, head, Q);
      var link := NextLink(head, 0);
      while link != head
        invariant Q == old(Q) && Valid()
        invariant k <= |Q| && link == NodeRing(head, Q)[if k == |Q| then 0 else k + 1]
        invariant forall i :: 0 <= i < |Q| ==>
                  Q[i].node in prio &&
                  prio[Q[i].node] == Q[i].key - if i < k then base else 0
        invariant forall n :: n in old(prio) ==> n in prio
        decreases |Q| - k
      {
        var node := link - NODE_LINK;
        assert node == Q[k].node;
        prio := prio[node := prio[node] - base];
        link := NextLink(link, k + 1);
        k := k + 1;
      }
      RebasedOk(mem.m, head, Q, base);
      Q := q;
    }

    /** The link after the `k`-th of the node ring. */
    function NextLink(link: Addr, ghost k: nat): (next: Addr)
      requires Valid() && k <= |Q| && link == NodeRing(head, Q)[k]
      reads this, mem
      ensures next == NodeRing(head, Q)[if k == |Q| then 0 else k + 1]
    {
      Neighbours(mem.m, NodeRing(head, Q), k);
      mem.m.next[link]
    }
  }
}
