/** Whole runs of list operations in memory: any calls, in any order, on any of the nodes of a
    pool. */
module PListDriver {
  import opened DList
  import opened PListSpec
  import opened PListRuns
  import opened PList
  import opened PListPool

  ghost function PoolSet(pool: seq<Addr>): set<Addr> {
    set n | n in pool
  }

  /** The list is the one the calls so far lead to, and every node of the pool that is not on it is
      linked to itself on both rings. */
  ghost predicate Driven(list: PList, pool: set<Addr>, ops: seq<Op<Addr>>)
    reads list, list.mem
  {
    && list.Valid() && KeysCurrent(list.prio, list.Q)
    && list.Q == Run(State([], map[], 0), ops).q
    && PoolOk(list.mem.m, list.head, list.Q, pool)
    && forall n :: n in pool ==> n in list.prio
  }

  /** One call on a node, queued or not. */
  method Perform(list: PList, op: Op<Addr>, ghost pool: set<Addr>, ghost ops: seq<Op<Addr>>)
    requires Driven(list, pool, ops) && op.node in pool
    modifies list, list.mem
    ensures Driven(list, pool, ops + [op])
  {
    hide ListOk, PoolOk, Queued, Removed, Position, OthersKept, Detached, Outside;
    var node := op.node;
    ghost var m, q := list.mem.m, list.Q;
    PoolAt(m, list.head, q, pool, node);
    assert (ops + [op])[..|ops|] == ops;
    match op
    case AddOp(_, prio) =>
      if list.IsNodeEmpty(node) {
        NotInQueue(q, node);
        list.prio := list.prio[node := prio];
        list.Add(node);
        PoolAdded(m, list.mem.m, list.head, q, node, prio, pool);
        QueuedCurrent(list.prio, q, node);
      }
    case RemoveOp(_) =>
      list.Remove(node);
      PoolRemoved(m, list.mem.m, list.head, q, node, pool);
      RemovedStill(list.prio, q, node);
    case RequeueOp(_) =>
      if !list.IsNodeEmpty(node) {
        PlacedCurrent(list.prio, q, node);
        list.Requeue(node);
        PoolRequeued(m, list.mem.m, list.head, q, node, list.prio[node], pool);
        RemovedStill(list.prio, q, node);
        QueuedCurrent(list.prio, Removed(q, node), node);
      }
  }

  lemma NotInQueue(q: Queue<Addr>, node: Addr)
    requires Position(q, node) == |q|
    ensures forall i :: 0 <= i < |q| ==> q[i].node != node
  {
    PositionIsFirst(q, node);
  }

  lemma RemovedStill(prio: map<Addr, int>, q: Queue<Addr>, node: Addr)
    requires KeysCurrent(prio, q)
    ensures KeysCurrent(prio, Removed(q, node))
  {
    if Position(q, node) < |q| {
      RemovedCurrent(prio, q, Position(q, node));
    }
  }

  lemma PlacedCurrent(prio: map<Addr, int>, q: Queue<Addr>, node: Addr)
    requires KeysCurrent(prio, q) && Position(q, node) < |q|
    ensures node in prio && q[Position(q, node)].key == prio[node]
  {
  }

  /** Any run of calls from freshly initialised nodes: both rings stay well formed throughout, the
      queue is the one of the abstract run, and every node that is not queued at the end is linked
      to itself on both rings. */
  method RunOps(mem: Memory, head: Addr, pool: seq<Addr>, ops: seq<Op<Addr>>) returns (list: PList)
    requires Separate(head, PoolSet(pool)) && (forall i, j :: 0 <= i < j < |pool| ==> pool[i] != pool[j])
    requires forall op :: op in ops ==> op.node in pool
    modifies mem
    ensures fresh(list) && list.mem == mem && list.head == head && list.Valid()
    ensures list.Q == Run(State([], map[], 0), ops).q
    ensures forall n :: n in pool && !IsQueued(list.Q, n) ==> Detached(mem.m, n)
  {
    hide ListOk, PoolOk, Run, Separate, Detached, Outside, OthersKept;
    list := new PList(mem, head);
    NoPool(mem.m, head);
    var i := 0;
    while i < |pool|
      invariant i <= |pool| && fresh(list) && list.mem == mem && list.head == head
      invariant list.Valid() && list.Q == [] && PoolOk(mem.m, head, [], PoolSet(pool[..i]))
      invariant forall n :: n in PoolSet(pool[..i]) ==> n in list.prio
    {
      ghost var m := mem.m;
      NextInPool(head, pool, i);
      list.NodeInit(pool[i], 0);
      PoolJoined(m, mem.m, head, [], pool[i], PoolSet(pool[..i]));
      i := i + 1;
    }
    assert pool[..|pool|] == pool;
    RunNone();
    var k := 0;
    while k < |ops|
      invariant k <= |ops| && fresh(list) && list.mem == mem && list.head == head
      invariant Driven(list, PoolSet(pool), ops[..k])
    {
      assert ops[..k + 1] == ops[..k] + [ops[k]];
      Perform(list, ops[k], PoolSet(pool), ops[..k]);
      k := k + 1;
    }
    assert ops[..|ops|] == ops;
    OffDetached(mem.m, head, list.Q, PoolSet(pool));
  }

  lemma RunNone()
    ensures Run<Addr>(State([], map[], 0), []).q == []
  {
  }

  lemma NoPool(m: Links, head: Addr)
    ensures PoolOk(m, head, [], PoolSet([]))
  {
  }

  lemma NextInPool(head: Addr, pool: seq<Addr>, i: nat)
    requires Separate(head, PoolSet(pool)) && i < |pool| && forall i, j :: 0 <= i < j < |pool| ==> pool[i] != pool[j]
    ensures PoolSet(pool[..i + 1]) == PoolSet(pool[..i]) + {pool[i]} && pool[i] !in PoolSet(pool[..i])
    ensures Separate(head, PoolSet(pool[..i]) + {pool[i]}) && Outside(head, [], pool[i])
  {
    assert pool[..i + 1] == pool[..i] + [pool[i]];
    assert PoolSet(pool[..i + 1]) <= PoolSet(pool);
  }

  lemma OffDetached(m: Links, head: Addr, q: Queue<Addr>, pool: set<Addr>)
    requires PoolOk(m, head, q, pool)
    ensures forall n :: n in pool && !IsQueued(q, n) ==> Detached(m, n)
  {
  }

  lemma PoolRequeued(m: Links, m': Links, head: Addr, q: Queue<Addr>, node: Addr, key: int, pool: set<Addr>)
    requires PoolOk(m, head, q, pool) && node in pool && OthersKept(m, m', head, q, node)
    ensures PoolOk(m', head, Queued(Removed(q, node), node, key), pool)
  {
    hide Detached, Removed, Queued;
    forall n
      ensures IsQueued(Queued(Removed(q, node), node, key), n) <==> IsQueued(Removed(q, node), n) || n == node
      ensures IsQueued(q, n) && n != node ==> IsQueued(Removed(q, node), n)
      ensures IsQueued(Removed(q, node), n) ==> IsQueued(q, n)
    {
      QueuedMembers(Removed(q, node), node, key, n);
      RemovedMembers(q, node, n);
    }
    OffKept(m, m', head, q, node, pool);
  }
}
