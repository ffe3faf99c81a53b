/** Nodes on and off a priority list: whatever is done to some, the others stay as they are. */
module PListPool {
  import opened DList
  import opened PListSpec
  import opened PList

  ghost predicate IsQueued(q: Queue<Addr>, node: Addr) {
    exists i :: 0 <= i < |q| && q[i].node == node
  }

  /** Objects that overlap neither each other nor the head. */
  ghost predicate Separate(head: Addr, pool: set<Addr>) {
    && (forall n :: n in pool ==> head + HEAD_SIZE <= n || n + NODE_SIZE <= head)
    && (forall a, b :: a in pool && b in pool && a != b ==> Disjoint(a, b))
  }

  /** Every node of the pool is queued, or linked to itself on both rings; and no other is queued. */
  ghost predicate PoolOk(m: Links, head: Addr, q: Queue<Addr>, pool: set<Addr>) {
    && Separate(head, pool)
    && (forall n :: IsQueued(q, n) ==> n in pool)
    && (forall n :: n in pool && !IsQueued(q, n) ==> Detached(m, n))
  }

  lemma QueuedIffPlace(q: Queue<Addr>, node: Addr)
    ensures IsQueued(q, node) <==> Position(q, node) < |q|
  {
    PositionIsFirst(q, node);
  }

  /** A node of the pool is on the list, or outside of it and detached. */
  lemma PoolAt(m: Links, head: Addr, q: Queue<Addr>, pool: set<Addr>, node: Addr)
    requires PoolOk(m, head, q, pool) && node in pool
    ensures Position(q, node) == |q| ==> Outside(head, q, node) && Detached(m, node)
  {
    QueuedIffPlace(q, node);
    if !IsQueued(q, node) {
      forall i | 0 <= i < |q|
        ensures Disjoint(q[i].node, node)
      {
        assert IsQueued(q, q[i].node);
      }
    }
  }

  lemma QueuedMembers(q: Queue<Addr>, node: Addr, key: int, n: Addr)
    ensures IsQueued(Queued(q, node, key), n) <==> IsQueued(q, n) || n == node
  {
    hide ScanPos;
    var r, p := Queued(q, node, key), ScanPos(q, key);
    assert r[p].node == node;
    if IsQueued(q, n) {
      var i :| 0 <= i < |q| && q[i].node == n;
      assert r[if i < p then i else i + 1] == q[i];
    }
    if IsQueued(r, n) {
      var i :| 0 <= i < |r| && r[i].node == n;
      assert i != p ==> r[i] == q[if i < p then i else i - 1];
    }
  }

  lemma RemovedMembers(q: Queue<Addr>, node: Addr, n: Addr)
    ensures IsQueued(q, n) && n != node ==> IsQueued(Removed(q, node), n)
    ensures IsQueued(Removed(q, node), n) ==> IsQueued(q, n)
  {
    PositionIsFirst(q, node);
    hide Position;
    var r, k := Removed(q, node), Position(q, node);
    if IsQueued(q, n) && n != node {
      var i :| 0 <= i < |q| && q[i].node == n;
      assert r[if i < k then i else i - 1] == q[i];
    }
    if IsQueued(r, n) {
      var i :| 0 <= i < |r| && r[i].node == n;
      assert k < |q| ==> r[i] == q[if i < k then i else i + 1];
    }
  }

  /** Putting a node on the list leaves all others in place. */
  lemma PoolAdded(m: Links, m': Links, head: Addr, q: Queue<Addr>, node: Addr, key: int, pool: set<Addr>)
    requires PoolOk(m, head, q, pool) && node in pool && OthersKept(m, m', head, q, node)
    ensures PoolOk(m', head, Queued(q, node, key), pool)
  {
    hide Detached, Queued;
    forall n
      ensures IsQueued(Queued(q, node, key), n) <==> IsQueued(q, n) || n == node
    {
      QueuedMembers(q, node, key, n);
    }
    OffKept(m, m', head, q, node, pool);
  }

  /** Taking a node off the list leaves all others in place. */
  lemma PoolRemoved(m: Links, m': Links, head: Addr, q: Queue<Addr>, node: Addr, pool: set<Addr>)
    requires PoolOk(m, head, q, pool) && node in pool && OthersKept(m, m', head, q, node) && Detached(m', node)
    ensures PoolOk(m', head, Removed(q, node), pool)
  {
    hide Detached, Removed;
    forall n
      ensures IsQueued(q, n) && n != node ==> IsQueued(Removed(q, node), n)
      ensures IsQueued(Removed(q, node), n) ==> IsQueued(q, n)
    {
      RemovedMembers(q, node, n);
    }
    OffKept(m, m', head, q, node, pool);
  }

  lemma OffKept(m: Links, m': Links, head: Addr, q: Queue<Addr>, node: Addr, pool: set<Addr>)
    requires PoolOk(m, head, q, pool) && node in pool && OthersKept(m, m', head, q, node)
    ensures forall n :: n in pool && n != node && !IsQueued(q, n) ==> Detached(m', n)
  {
    hide Detached;
    forall n | n in pool && n != node && !IsQueued(q, n)
      ensures Detached(m', n)
    {
      PoolAt(m, head, q, pool, n);
      QueuedIffPlace(q, n);
    }
  }

  /** A new node joins the pool. */
  lemma PoolJoined(m: Links, m': Links, head: Addr, q: Queue<Addr>, node: Addr, pool: set<Addr>)
    requires PoolOk(m, head, q, pool) && Separate(head, pool + {node}) && node !in pool
    requires OthersKept(m, m', head, q, node) && Detached(m', node)
    ensures PoolOk(m', head, q, pool + {node})
  {
    hide Detached;
    forall n | n in pool && !IsQueued(q, n)
      ensures Detached(m', n)
    {
      PoolAt(m, head, q, pool, n);
      QueuedIffPlace(q, n);
    }
  }

  /** Where the list is does not matter for whether the pool is. */
  lemma PoolRebased(m: Links, head: Addr, q: Queue<Addr>, base: int, pool: set<Addr>)
    requires PoolOk(m, head, q, pool)
    ensures PoolOk(m, head, Rebased(q, base), pool)
  {
    forall n
      ensures IsQueued(Rebased(q, base), n) <==> IsQueued(q, n)
    {
      assert forall i :: 0 <= i < |q| ==> Rebased(q, base)[i].node == q[i].node;
    }
  }
}
