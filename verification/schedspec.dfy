/** What one expired time slice does to the run queue, and where that leads over any number of
    slices: plain round robin, with priorities that stay small. */
module SchedSpec {
  import opened DList
  import opened PListSpec

  /** The running thread stays queued while it runs. */
  datatype Sched<T> = Sched(running: T, q: Queue<T>)

  /** The tick that ends a slice: priorities are re-based to start at 0, the running thread goes
      behind the last one. */
  function Preempted<T(==)>(s: Sched<T>): Queue<T>
    requires s.q != []
  {
    var q := Rebased(s.q, s.q[0].key);
    Queued(Removed(q, s.running), s.running, q[|q| - 1].key + 1)
  }

  /** Rescheduling: the head is taken out, made current, and queued again. */
  function Dispatched<T(==)>(q: Queue<T>): Sched<T>
    requires q != []
  {
    Sched(q[0].node, Queued(q[1..], q[0].node, q[0].key))
  }

  function Expired<T(==)>(s: Sched<T>): Sched<T>
    requires s.q != []
  {
    Dispatched(Preempted(s))
  }

  ghost predicate Ok<T>(s: Sched<T>) {
    Sorted(s.q) && DistinctNodes(s.q) && Position(s.q, s.running) < |s.q|
  }

  function Nodes<T>(q: Queue<T>): (r: seq<T>)
    ensures |r| == |q| && forall i {:trigger r[i]} :: 0 <= i < |q| ==> r[i] == q[i].node
  {
    seq(|q|, i requires 0 <= i < |q| => q[i].node)
  }

  function Keys<T>(q: Queue<T>): (r: seq<int>)
    ensures |r| == |q| && forall i {:trigger r[i]} :: 0 <= i < |q| ==> r[i] == q[i].key
  {
    seq(|q|, i requires 0 <= i < |q| => q[i].key)
  }

  /** The threads that wait, in order. */
  function Waiting<T(==)>(s: Sched<T>): seq<T> {
    Nodes(Removed(s.q, s.running))
  }

  lemma RemovedRebased<T>(q: Queue<T>, base: int, node: T)
    ensures Removed(Rebased(q, base), node) == Rebased(Removed(q, node), base)
    ensures Position(Rebased(q, base), node) == Position(q, node)
  {
    PositionIsFirst(q, node);
    PositionUnique(Rebased(q, base), node, Position(q, node));
  }

  lemma HighestGoesLast<T>(q: Queue<T>, node: T, prio: int)
    requires Sorted(q) && forall i :: 0 <= i < |q| ==> q[i].key < prio
    ensures Queued(q, node, prio) == q + [Entry(node, prio)]
  {
    ScanPosUnique(q, prio, |q|);
  }

  lemma PreemptedGoesLast<T>(s: Sched<T>)
    requires Ok(s)
    ensures var q := Rebased(s.q, s.q[0].key);
            Preempted(s) == Rebased(Removed(s.q, s.running), s.q[0].key) + [Entry(s.running, q[|q| - 1].key + 1)]
  {
    hide Position, Queued;
    var q := Rebased(s.q, s.q[0].key);
    RemovedRebased(s.q, s.q[0].key, s.running);
    RemovedOk(q, s.running);
    HighestGoesLast(Removed(q, s.running), s.running, q[|q| - 1].key + 1);
  }

  lemma RemovedOk<T>(q: Queue<T>, node: T)
    requires Sorted(q) && DistinctNodes(q) && Position(q, node) < |q|
    ensures var r := Removed(q, node);
            && Sorted(r) && DistinctNodes(r)
            && forall i :: 0 <= i < |r| ==> r[i].node != node && r[i].key < q[|q| - 1].key + 1
  {
    hide Position;
    var r, k := Removed(q, node), Position(q, node);
    forall i | 0 <= i < |r|
      ensures r[i].node != node && r[i].key < q[|q| - 1].key + 1
    {
      assert r[i] == q[if i < k then i else i + 1];
    }
  }

  lemma PreemptedOk<T>(s: Sched<T>)
    requires Ok(s)
    ensures Sorted(Preempted(s)) && DistinctNodes(Preempted(s)) && |Preempted(s)| == |s.q|
  {
    hide Position, Removed, Preempted;
    PreemptedGoesLast(s);
    RemovedOk(s.q, s.running);
    RemovedLength(s.q, s.running);
  }

  lemma RemovedLength<T>(q: Queue<T>, node: T)
    requires Position(q, node) < |q|
    ensures |Removed(q, node)| == |q| - 1
  {
  }

  lemma PreemptedNodes<T>(s: Sched<T>)
    requires Ok(s)
    ensures Nodes(Preempted(s)) == Waiting(s) + [s.running]
  {
    PreemptedGoesLast(s);
    var r := Removed(s.q, s.running);
    assert Nodes(Rebased(r, s.q[0].key)) == Nodes(r);
  }

  lemma QueuedPosition<T>(q: Queue<T>, e: Entry<T>)
    requires forall i :: 0 <= i < |q| ==> q[i].node != e.node
    ensures Position(Queued(q, e.node, e.key), e.node) == ScanPos(q, e.key)
  {
    PositionUnique(Queued(q, e.node, e.key), e.node, ScanPos(q, e.key));
  }

  lemma RequeueRest<T>(q: Queue<T>, e: Entry<T>)
    requires DistinctNodes(q) && forall i :: 0 <= i < |q| ==> q[i].node != e.node
    ensures Removed(Queued(q, e.node, e.key), e.node) == q
    ensures DistinctNodes(Queued(q, e.node, e.key))
  {
    hide Position, ScanPos;
    QueuedPosition(q, e);
    var q', p := Queued(q, e.node, e.key), ScanPos(q, e.key);
    assert RemoveAt(q', p) == q;
    forall i, j | 0 <= i < j < |q'|
      ensures q'[i].node != q'[j].node
    {
      assert i != p ==> q'[i] == q[if i < p then i else i - 1];
      assert j != p ==> q'[j] == q[if j < p then j else j - 1];
    }
  }

  /** The head of the queue is made current; the others wait, in the order they have. */
  lemma DispatchedOk<T>(p: Queue<T>)
    requires Sorted(p) && DistinctNodes(p) && p != []
    ensures Ok(Dispatched(p)) && |Dispatched(p).q| == |p|
    ensures Dispatched(p).running == p[0].node && Waiting(Dispatched(p)) == Nodes(p[1..])
  {
    hide Removed;
    RequeueRest(p[1..], p[0]);
    QueuedSorted(p[1..], p[0].node, p[0].key);
    QueuedPosition(p[1..], p[0]);
  }

  /** One expiry is one step of FIFO round robin: the first waiting thread runs, the one that ran
      waits last; alone, a thread runs on. */
  lemma ExpiryIsRoundRobin<T>(s: Sched<T>)
    requires Ok(s)
    ensures Ok(Expired(s)) && |Expired(s).q| == |s.q|
    ensures var w := Waiting(s);
            if w == [] then Expired(s).running == s.running && Waiting(Expired(s)) == []
            else Expired(s).running == w[0] && Waiting(Expired(s)) == w[1..] + [s.running]
  {
    hide Preempted, Dispatched, Waiting;
    PreemptedOk(s);
    PreemptedNodes(s);
    var p := Preempted(s);
    DispatchedOk(p);
    WaitingLength(s);
    var w := Waiting(s);
    assert p[0].node == (w + [s.running])[0];
    assert Nodes(p[1..]) == (w + [s.running])[1..];
    assert w != [] ==> (w + [s.running])[1..] == w[1..] + [s.running];
  }

  lemma WaitingLength<T>(s: Sched<T>)
    requires Ok(s)
    ensures |Waiting(s)| == |s.q| - 1
  {
  }

  function Expiries<T(==)>(s: Sched<T>, n: nat): Sched<T>
    requires s.q != []
    ensures Expiries(s, n).q != []
  {
    if n == 0 then s else Expired(Expiries(s, n - 1))
  }

  /** All threads: the running one, then those that wait, in order. */
  function Round<T(==)>(s: Sched<T>): seq<T> {
    [s.running] + Waiting(s)
  }

  /** The round, `n` places further. */
  function Turned<T>(r: seq<T>, n: nat): seq<T> {
    if n <= |r| then r[n..] + r[..n] else r
  }

  lemma TurnedOnce<T>(r: seq<T>, n: nat)
    requires n < |r|
    ensures Turned(Turned(r, n), 1) == Turned(r, n + 1)
  {
  }

  lemma RoundTurnsOnce<T>(s: Sched<T>)
    requires Ok(s)
    ensures Ok(Expired(s)) && |Expired(s).q| == |s.q|
    ensures Round(Expired(s)) == Turned(Round(s), 1)
  {
    hide Expired, Waiting, Ok;
    ExpiryIsRoundRobin(s);
    var w := Waiting(s);
    assert Round(s)[1..] == w && Round(s)[..1] == [s.running];
    if w != [] {
      assert w == [w[0]] + w[1..];
    }
  }

  lemma RoundLength<T>(s: Sched<T>)
    requires Ok(s)
    ensures |Round(s)| == |s.q|
  {
  }

  /** After `n` expiries the round has turned by `n`. */
  lemma {:induction false} RoundTurns<T>(s: Sched<T>, n: nat)
    requires Ok(s) && n <= |s.q|
    ensures Ok(Expiries(s, n)) && |Expiries(s, n).q| == |s.q|
    ensures Round(Expiries(s, n)) == Turned(Round(s), n)
  {
    hide Expired, Ok, Round;
    RoundLength(s);
    if n == 0 {
      assert Turned(Round(s), 0) == Round(s);
    } else {
      hide Turned;
      RoundTurns(s, n - 1);
      RoundTurnsOnce(Expiries(s, n - 1));
      TurnedOnce(Round(s), n - 1);
    }
  }

  lemma InRound<T>(s: Sched<T>, i: nat) returns (n: nat)
    requires Ok(s) && i < |s.q|
    ensures n < |Round(s)| == |s.q| && Round(s)[n] == s.q[i].node
  {
    var k := Position(s.q, s.running);
    n := if i < k then i + 1 else if i == k then 0 else i;
    if i != k {
      assert Waiting(s)[n - 1] == Removed(s.q, s.running)[n - 1].node;
    }
  }

  /** With nobody created or exiting, every thread runs within as many expiries as there are
      threads. */
  lemma EveryThreadRuns<T>(s: Sched<T>, i: nat)
    requires Ok(s) && i < |s.q|
    ensures exists n :: 0 <= n < |s.q| && Expiries(s, n).running == s.q[i].node
  {
    var n := InRound(s, i);
    RoundTurns(s, n);
    assert Expiries(s, n).running == Round(Expiries(s, n))[0] == Turned(Round(s), n)[0];
  }

  // --- how large priorities grow

  /** The room the priorities of a sorted queue take: every step up counts as it is, every tie
      counts one. */
  function Room(keys: seq<int>): int {
    if |keys| <= 1 then 0
    else Room(keys[1..]) + if keys[1] - keys[0] > 1 then keys[1] - keys[0] else 1
  }

  lemma {:induction false} RoomBoundsSpan(keys: seq<int>)
    requires keys != []
    ensures keys[|keys| - 1] - keys[0] <= Room(keys)
  {
    if |keys| > 1 {
      RoomBoundsSpan(keys[1..]);
    }
  }

  lemma {:induction false} RoomOfTies(keys: seq<int>)
    requires keys != [] && forall i :: 0 <= i < |keys| ==> keys[i] == keys[0]
    ensures Room(keys) == |keys| - 1
  {
    if |keys| > 1 {
      RoomOfTies(keys[1..]);
    }
  }

  lemma {:induction false} RoomOfNext(keys: seq<int>)
    requires keys != []
    ensures Room(keys + [keys[|keys| - 1] + 1]) == Room(keys) + 1
  {
    if |keys| > 1 {
      RoomOfNext(keys[1..]);
      assert (keys + [keys[|keys| - 1] + 1])[1..] == keys[1..] + [keys[|keys| - 1] + 1];
    }
  }

  lemma {:induction false} RoomOfShift(keys: seq<int>, keys': seq<int>, base: int)
    requires |keys'| == |keys| && forall i :: 0 <= i < |keys| ==> keys'[i] == keys[i] - base
    ensures Room(keys') == Room(keys)
  {
    if |keys| > 1 {
      RoomOfShift(keys[1..], keys'[1..], base);
    }
  }

  /** Dropping one of the lowest entries or the first one leaves the same keys. */
  lemma SameKeysRemoved<T>(q: Queue<T>, k: nat)
    requires Sorted(q) && k < |q| && q[k].key == q[0].key
    ensures Keys(RemoveAt(q, k)) == Keys(q)[1..]
  {
    forall i | 0 <= i < |q| - 1
      ensures RemoveAt(q, k)[i].key == q[i + 1].key
    {
      if i < k {
        assert q[0].key <= q[i].key <= q[k].key && q[0].key <= q[i + 1].key <= q[k].key;
      }
    }
  }

  /** Queueing the head again leaves the same keys. */
  lemma SameKeysRequeued<T>(q: Queue<T>)
    requires Sorted(q) && q != []
    ensures Keys(Queued(q[1..], q[0].node, q[0].key)) == Keys(q)
  {
    var r, p := Queued(q[1..], q[0].node, q[0].key), ScanPos(q[1..], q[0].key);
    ScanPosStops(q[1..], q[0].key);
    forall i | 0 <= i < |q|
      ensures r[i].key == q[i].key
    {
      if i < p {
        assert q[0].key <= q[i].key && q[0].key <= q[1..][i].key <= q[0].key;
      }
      if 0 < i <= p {
        assert q[1..][i - 1].key <= q[0].key;
      }
    }
  }

  /** The running thread has one of the lowest priorities. */
  ghost predicate RunsLowest<T>(s: Sched<T>) {
    Ok(s) && s.q[Position(s.q, s.running)].key == s.q[0].key
  }

  lemma PreemptedKeys<T>(s: Sched<T>)
    requires RunsLowest(s)
    ensures var k := Keys(Rebased(s.q, s.q[0].key)); Keys(Preempted(s)) == k[1..] + [k[|k| - 1] + 1]
  {
    PreemptedGoesLast(s);
    var q := Rebased(s.q, s.q[0].key);
    RemovedRebased(s.q, s.q[0].key, s.running);
    SameKeysRemoved(q, Position(q, s.running));
    assert Keys(Preempted(s)) == Keys(Removed(q, s.running)) + [q[|q| - 1].key + 1];
  }

  lemma DispatchedLowest<T>(p: Queue<T>)
    requires Sorted(p) && DistinctNodes(p) && p != []
    ensures RunsLowest(Dispatched(p)) && Keys(Dispatched(p).q) == Keys(p)
  {
    var e, rest := p[0], p[1..];
    var q, i := Queued(rest, e.node, e.key), ScanPos(rest, e.key);
    SameKeysRequeued(p);
    RequeueRest(rest, e);
    QueuedSorted(rest, e.node, e.key);
    assert forall j :: 0 <= j < i ==> q[j].node != e.node;
    PositionUnique(q, e.node, i);
    assert Keys(q)[0] == Keys(p)[0];
  }

  lemma SomeoneQueued<T>(s: Sched<T>)
    requires RunsLowest(s)
    ensures s.q != []
  {
  }

  /** The priorities after an expiry do not depend on the threads at all. */
  lemma KeysAfterExpiry<T>(s: Sched<T>)
    requires RunsLowest(s)
    ensures var k := Keys(Rebased(s.q, s.q[0].key)); Keys(Expired(s).q) == k[1..] + [k[|k| - 1] + 1]
    ensures RunsLowest(Expired(s))
  {
    PreemptedKeys(s);
    PreemptedOk(s);
    DispatchedLowest(Preempted(s));
  }

  /** The room never grows, whatever the number of slices. */
  lemma RoomShrinks<T>(s: Sched<T>)
    requires RunsLowest(s)
    ensures Room(Keys(Expired(s).q)) <= Room(Keys(s.q))
  {
    hide Expired, Position, Rebased;
    KeysAfterExpiry(s);
    var k := Keys(Rebased(s.q, s.q[0].key));
    RoomOfShift(Keys(s.q), k, s.q[0].key);
    if |k| > 1 {
      RoomOfNext(k[1..]);
    }
  }

  /** One expiry from a queue of room less than `n` leaves every priority between 0 and `n`. */
  lemma SmallAfterExpiry<T>(s: Sched<T>, n: nat)
    requires RunsLowest(s) && Room(Keys(s.q)) < n
    ensures forall i :: 0 <= i < |Expired(s).q| ==> 0 <= Expired(s).q[i].key <= n
  {
    hide Expired, Room, Position;
    var t, k := Expired(s), Keys(Rebased(s.q, s.q[0].key));
    KeysAfterExpiry(s);
    RoomBoundsSpan(Keys(s.q));
    forall i | 0 <= i < |t.q|
      ensures 0 <= t.q[i].key <= n
    {
      assert t.q[i].key == Keys(t.q)[i] == (k[1..] + [k[|k| - 1] + 1])[i];
    }
  }

  lemma {:induction false} RoomForEver<T>(s: Sched<T>, n: nat)
    requires RunsLowest(s)
    ensures RunsLowest(Expiries(s, n)) && Room(Keys(Expiries(s, n).q)) <= Room(Keys(s.q))
  {
    hide Expired, RunsLowest, Room, Keys;
    SomeoneQueued(s);
    if n > 0 {
      RoomForEver(s, n - 1);
      RoomShrinks(Expiries(s, n - 1));
      KeysAfterExpiry(Expiries(s, n - 1));
    }
  }

  /** Threads that start with equal priorities have priorities between 0 and their number after
      every expiry, for ever. */
  lemma PrioritiesStaySmall<T>(s: Sched<T>, n: nat)
    requires Ok(s) && n > 0 && forall i :: 0 <= i < |s.q| ==> s.q[i].key == s.q[0].key
    ensures forall i :: 0 <= i < |Expiries(s, n).q| ==> 0 <= Expiries(s, n).q[i].key <= |s.q|
  {
    hide Expired, Room;
    RoomOfTies(Keys(s.q));
    RoomForEver(s, n - 1);
    SmallAfterExpiry(Expiries(s, n - 1), |s.q|);
  }
}
