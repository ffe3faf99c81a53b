/** The queue that `kernel/utils/plist.c` keeps, as a value: entries in order, each with the key
    (priority) it was queued under. */
module PListSpec {
  import opened Wrappers
  import opened DList

  datatype Entry<T> = Entry(node: T, key: int)
  type Queue<T> = seq<Entry<T>>

  ghost predicate Sorted<T>(q: Queue<T>) {
    forall i, j :: 0 <= i < j < |q| ==> q[i].key <= q[j].key
  }

  ghost predicate DistinctNodes<T>(q: Queue<T>) {
    forall i, j :: 0 <= i < j < |q| ==> q[i].node != q[j].node
  }

  /** Where a linear scan inserts priority `prio`: before the first entry of a higher key. */
  function ScanPos<T>(q: Queue<T>, prio: int): (p: nat)
    ensures p <= |q|
  {
    if q == [] || prio < q[0].key then 0 else 1 + ScanPos(q[1..], prio)
  }

  lemma {:induction false} ScanPosStops<T>(q: Queue<T>, prio: int)
    ensures var p := ScanPos(q, prio);
            (forall i :: 0 <= i < p ==> q[i].key <= prio) && (p < |q| ==> prio < q[p].key)
  {
    if q != [] && q[0].key <= prio {
      ScanPosStops(q[1..], prio);
      forall i | 0 <= i < ScanPos(q, prio)
        ensures q[i].key <= prio
      {
        assert i > 0 ==> q[i] == q[1..][i - 1];
      }
    }
  }

  /** The queue after a node is inserted by linear scan. */
  function Queued<T>(q: Queue<T>, node: T, prio: int): Queue<T> {
    InsertAt(q, ScanPos(q, prio), Entry(node, prio))
  }

  /** The position of `node` in the queue, or the length of the queue. */
  function Position<T(==)>(q: Queue<T>, node: T): (k: nat)
    ensures k <= |q| && (k < |q| ==> q[k].node == node)
  {
    if q == [] || q[0].node == node then 0 else 1 + Position(q[1..], node)
  }

  lemma {:induction false} PositionIsFirst<T>(q: Queue<T>, node: T)
    ensures forall i :: 0 <= i < Position(q, node) ==> q[i].node != node
  {
    if q != [] && q[0].node != node {
      PositionIsFirst(q[1..], node);
      forall i | 0 <= i < Position(q, node)
        ensures q[i].node != node
      {
        assert i > 0 ==> q[i] == q[1..][i - 1];
      }
    }
  }

  /** The queue after a node is taken out; a node that is not queued changes nothing. */
  function Removed<T(==)>(q: Queue<T>, node: T): Queue<T> {
    var k := Position(q, node);
    if k < |q| then RemoveAt(q, k) else q
  }

  lemma PositionUnique<T>(q: Queue<T>, node: T, k: nat)
    requires k <= |q| && (forall i :: 0 <= i < k ==> q[i].node != node)
    requires k < |q| ==> q[k].node == node
    ensures Position(q, node) == k
  {
    PositionIsFirst(q, node);
  }

  lemma ScanPosUnique<T>(q: Queue<T>, prio: int, p: nat)
    requires Sorted(q) && p <= |q|
    requires p > 0 ==> q[p - 1].key <= prio
    requires p < |q| ==> prio < q[p].key
    ensures p == ScanPos(q, prio)
  {
    ScanPosStops(q, prio);
  }

  lemma QueuedSorted<T>(q: Queue<T>, node: T, prio: int)
    requires Sorted(q)
    ensures Sorted(Queued(q, node, prio))
  {
    ScanPosStops(q, prio);
  }

  /** The nodes that open a group of equal key; `prev` is the key just before `q`, if any. */
  function Leaders<T>(q: Queue<T>, prev: Option<int>): seq<T> {
    if q == [] then []
    else if prev == Some(q[0].key) then Leaders(q[1..], prev)
    else [q[0].node] + Leaders(q[1..], Some(q[0].key))
  }

  function LastKey<T>(q: Queue<T>, prev: Option<int>): Option<int> {
    if q == [] then prev else Some(q[|q| - 1].key)
  }

  lemma {:induction false} LeadersConcat<T>(a: Queue<T>, b: Queue<T>, prev: Option<int>)
    ensures Leaders(a + b, prev) == Leaders(a, prev) + Leaders(b, LastKey(a, prev))
  {
    if a == [] {
      assert a + b == b;
    } else {
      assert (a + b)[1..] == a[1..] + b;
      LeadersConcat(a[1..], b, Some(a[0].key));
    }
  }

  lemma LeadersAround<T>(a: Queue<T>, e: Entry<T>, b: Queue<T>)
    ensures Leaders(a + [e] + b, None) == Leaders(a, None)
                                          + (if LastKey(a, None) == Some(e.key) then [] else [e.node])
                                          + Leaders(b, Some(e.key))
  {
    LeadersConcat(a, [e] + b, None);
    assert a + [e] + b == a + ([e] + b);
    assert ([e] + b)[1..] == b;
  }

  lemma LeadersSplit<T>(q: Queue<T>, k: nat)
    requires k <= |q|
    ensures Leaders(q, None) == Leaders(q[..k], None) + Leaders(q[k..], LastKey(q[..k], None))
  {
    assert q == q[..k] + q[k..];
    LeadersConcat(q[..k], q[k..], None);
  }

  lemma LeadersFrom<T>(q: Queue<T>, prev: Option<int>)
    ensures forall n :: n in Leaders(q, prev) ==> exists i :: 0 <= i < |q| && q[i].node == n
  {
    if q != [] {
      LeadersFrom(q[1..], Some(q[0].key));
      forall n | n in Leaders(q, prev)
        ensures exists i :: 0 <= i < |q| && q[i].node == n
      {
        if n in Leaders(q[1..], Some(q[0].key)) {
          var i :| 0 <= i < |q[1..]| && q[1..][i].node == n;
          assert q[i + 1].node == n;
        }
      }
    }
  }

  /** The leaders are exactly the first nodes of their key. */
  lemma LeadersAreFirsts<T>(q: Queue<T>, k: nat)
    requires DistinctNodes(q) && k < |q|
    ensures q[k].node in Leaders(q, None) <==> k == 0 || q[k - 1].key != q[k].key
  {
    hide Leaders;
    assert q == q[..k] + [q[k]] + q[k + 1..];
    LeadersAround(q[..k], q[k], q[k + 1..]);
    LeadersFrom(q[..k], None);
    LeadersFrom(q[k + 1..], Some(q[k].key));
  }

  /** How many entries at the front of `q` have key `key`. */
  function FrontRun<T>(q: Queue<T>, key: int): (n: nat)
    ensures n <= |q|
    ensures forall i :: 0 <= i < n ==> q[i].key == key
    ensures n < |q| ==> q[n].key != key
  {
    if q != [] && q[0].key == key then 1 + FrontRun(q[1..], key) else 0
  }

  lemma {:induction false} FollowersOnly<T>(q: Queue<T>, key: int)
    requires forall i :: 0 <= i < |q| ==> q[i].key == key
    ensures Leaders(q, Some(key)) == []
  {
    if q != [] {
      FollowersOnly(q[1..], key);
    }
  }

  /** The position after the group that starts at `m`. */
  function GroupEnd<T>(q: Queue<T>, m: nat): (n: nat)
    requires m < |q|
    ensures m < n <= |q|
    ensures forall i :: m <= i < n ==> q[i].key == q[m].key
    ensures n < |q| ==> q[n].key != q[m].key
  {
    m + 1 + FrontRun(q[m + 1..], q[m].key)
  }

  /** One step along the leader ring skips one whole group of the queue. */
  lemma SkipGroup<T>(q: Queue<T>, m: nat)
    requires m < |q| && LastKey(q[..m], None) != Some(q[m].key)
    ensures Leaders(q[..GroupEnd(q, m)], None) == Leaders(q[..m], None) + [q[m].node]
  {
    var n := GroupEnd(q, m);
    var g := q[m + 1..n];
    assert q[..n] == q[..m] + [q[m]] + g;
    LeadersAround(q[..m], q[m], g);
    assert forall i :: 0 <= i < |g| ==> g[i] == q[m + 1 + i];
    FollowersOnly(g, q[m].key);
  }

  /** At the start of a group, the leaders before it and the leader it opens with. */
  lemma AtGroup<T>(q: Queue<T>, m: nat)
    requires m < |q| && LastKey(q[..m], None) != Some(q[m].key)
    ensures var P, j := Leaders(q, None), |Leaders(q[..m], None)|;
            j < |P| && P[..j] == Leaders(q[..m], None) && P[j] == q[m].node
  {
    LeadersSplit(q, m);
  }

  /** A group of `q` starts at position `p`, with `j` groups before it. */
  ghost predicate GroupStart<T>(q: Queue<T>, p: nat, j: nat) {
    && p < |q| && j == |Leaders(q[..p], None)| < |Leaders(q, None)|
    && (p > 0 <==> j > 0)
    && (p > 0 ==> q[p - 1].key != q[p].key)
    && Leaders(q, None)[j] == q[p].node
  }

  lemma FirstGroup<T>(q: Queue<T>)
    requires q != []
    ensures GroupStart(q, 0, 0)
  {
    AtGroup(q, 0);
  }

  /** The leader after the one at `p` opens the next group, if there is one. */
  lemma NextGroup<T>(q: Queue<T>, p: nat, j: nat)
    requires GroupStart(q, p, j)
    ensures var n := GroupEnd(q, p);
            && q[n - 1].key == q[p].key
            && if n < |q| then GroupStart(q, n, j + 1)
               else j + 1 == |Leaders(q, None)| == |Leaders(q[..n], None)|
  {
    var n := GroupEnd(q, p);
    SkipGroup(q, p);
    if n < |q| {
      AtGroup(q, n);
    } else {
      assert q[..n] == q;
    }
  }

  /** Insertion by linear scan, seen from the leaders: `node` leads a new group, or none. */
  lemma LeadersQueued<T>(q: Queue<T>, node: T, prio: int)
    requires Sorted(q)
    ensures var P, p := Leaders(q, None), ScanPos(q, prio);
            var j := |Leaders(q[..p], None)|;
            && j <= |P|
            && Leaders(Queued(q, node, prio), None)
               == if LastKey(q[..p], None) == Some(prio) then P else InsertAt(P, j, node)
  {
    var p := ScanPos(q, prio);
    var a, b := q[..p], q[p..];
    var A, B := Leaders(a, None), Leaders(b, Some(prio));
    ScanPosStops(q, prio);
    LeadersAround(a, Entry(node, prio), b);
    LeadersSplit(q, p);
    LeadersSwap(b, LastKey(a, None), Some(prio));
    assert Leaders(q, None) == A + B;
    InsertConcat(A, B, node);
  }

  lemma LeadersSwap<T>(b: Queue<T>, k: Option<int>, k': Option<int>)
    requires b == [] || k == k' || (k != Some(b[0].key) && k' != Some(b[0].key))
    ensures Leaders(b, k) == Leaders(b, k')
  {
  }

  /** A follower leaves: the leaders stay. */
  lemma FollowerRemoved<T>(q: Queue<T>, k: nat)
    requires k < |q| && LastKey(q[..k], None) == Some(q[k].key)
    ensures Leaders(RemoveAt(q, k), None) == Leaders(q, None)
  {
    var a, e, b := q[..k], q[k], q[k + 1..];
    assert q == a + [e] + b;
    LeadersAround(a, e, b);
    LeadersConcat(a, b, None);
  }

  lemma SuccessorLeads<T>(a: Queue<T>, e: Entry<T>, b: Queue<T>)
    requires b != [] && LastKey(a, None) != Some(e.key) && b[0].key == e.key
    ensures var A, C := Leaders(a, None), Leaders(b[1..], Some(e.key));
            && Leaders(a + [e] + b, None) == A + [e.node] + C
            && Leaders(a + b, None) == A + [b[0].node] + C
  {
    LeadersAround(a, e, b);
    assert a + [b[0]] + b[1..] == a + b;
    LeadersAround(a, b[0], b[1..]);
  }

  /** The leader of a larger group leaves: its successor takes its place. */
  lemma LeaderSucceeded<T>(q: Queue<T>, k: nat)
    requires k + 1 < |q| && LastKey(q[..k], None) != Some(q[k].key) && q[k + 1].key == q[k].key
    ensures var P, j := Leaders(q, None), |Leaders(q[..k], None)|;
            j < |P| && P[j] == q[k].node && Leaders(RemoveAt(q, k), None) == P[j := q[k + 1].node]
  {
    var a, b := q[..k], q[k + 1..];
    SuccessorLeads(a, q[k], b);
    assert q == a + [q[k]] + b;
    ReplaceConcat(Leaders(a, None), q[k].node, Leaders(b[1..], Some(q[k].key)), q[k + 1].node);
  }

  /** The only node of its key leaves: its group is gone. */
  lemma GroupRemoved<T>(q: Queue<T>, k: nat)
    requires Sorted(q) && k < |q| && LastKey(q[..k], None) != Some(q[k].key)
    requires k + 1 < |q| ==> q[k + 1].key != q[k].key
    ensures var P, j := Leaders(q, None), |Leaders(q[..k], None)|;
            j < |P| && P[j] == q[k].node && Leaders(RemoveAt(q, k), None) == RemoveAt(P, j)
  {
    var a, e, b := q[..k], q[k], q[k + 1..];
    var A, B := Leaders(a, None), Leaders(b, Some(e.key));
    assert q == a + [e] + b;
    LeadersAround(a, e, b);
    LeadersConcat(a, b, None);
    RemoveConcat(A, e.node, B);
    LeadersSwap(b, LastKey(a, None), Some(e.key));
  }

  /** Requeueing the last node of its priority changes nothing. */
  lemma LastOfGroup<T>(q: Queue<T>, k: nat)
    requires Sorted(q) && DistinctNodes(q) && k < |q| && (k + 1 < |q| ==> q[k].key != q[k + 1].key)
    ensures Queued(Removed(q, q[k].node), q[k].node, q[k].key) == q
  {
    PositionUnique(q, q[k].node, k);
    ScanPosUnique(RemoveAt(q, k), q[k].key, k);
  }

  function Rebased<T>(q: Queue<T>, base: int): (r: Queue<T>)
    ensures |r| == |q|
    ensures forall i {:trigger r[i]} :: 0 <= i < |q| ==> r[i] == Entry(q[i].node, q[i].key - base)
  {
    seq(|q|, i requires 0 <= i < |q| => Entry(q[i].node, q[i].key - base))
  }

  lemma {:induction false} LeadersRebased<T>(q: Queue<T>, base: int, prev: Option<int>)
    ensures Leaders(Rebased(q, base), if prev == None then None else Some(prev.value - base)) == Leaders(q, prev)
  {
    if q != [] {
      assert Rebased(q, base)[1..] == Rebased(q[1..], base);
      LeadersRebased(q[1..], base, Some(q[0].key));
    }
  }
}
