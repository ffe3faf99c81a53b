/** The scheduler of `kernel/task/scheduler.c` over the priority list. */
module Scheduler {
  import opened Wrappers
  import opened DList
  import opened PListSpec
  import opened PList
  import opened PListPool
  import opened SchedSpec

  const SCHED_TIME_SLICE: nat := 8
  // offset of `list` in struct thread
  const THREAD_LIST: nat := 104

  datatype ThreadState = Ready | Running | Terminated

  function ListNode(thread: Addr): Addr { thread + THREAD_LIST }

  ghost function NodeSet(q: Queue<Addr>): set<Addr> {
    set i | 0 <= i < |q| :: q[i].node
  }

  lemma QueuedSet(q: Queue<Addr>, node: Addr, key: int)
    ensures NodeSet(Queued(q, node, key)) == NodeSet(q) + {node}
  {
    hide ScanPos;
    var q', p := Queued(q, node, key), ScanPos(q, key);
    assert q'[p].node == node;
    forall i | 0 <= i < |q|
      ensures q[i].node in NodeSet(q')
    {
      assert q'[if i < p then i else i + 1] == q[i];
    }
  }

  lemma RemovedSet(q: Queue<Addr>, node: Addr)
    requires DistinctNodes(q)
    ensures NodeSet(Removed(q, node)) == NodeSet(q) - {node}
  {
    PositionIsFirst(q, node);
    hide Position;
    var r, k := Removed(q, node), Position(q, node);
    forall i | 0 <= i < |r|
      ensures r[i].node in NodeSet(q) && r[i].node != node
    {
      assert k < |q| ==> r[i] == q[if i < k then i else i + 1];
    }
    forall i | 0 <= i < |q| && q[i].node != node
      ensures q[i].node in NodeSet(r)
    {
      assert r[if i < k then i else i - 1] == q[i];
    }
  }

  lemma RebasedSet(q: Queue<Addr>, base: int)
    ensures NodeSet(Rebased(q, base)) == NodeSet(q)
    ensures DistinctNodes(q) ==> DistinctNodes(Rebased(q, base))
    ensures |Rebased(q, base)| == |q|
  {
    var r := Rebased(q, base);
    assert forall i :: 0 <= i < |q| ==> r[i].node == q[i].node;
  }

  /** Taking out the current thread and queueing it again keeps who is queued. */
  lemma PreemptedSet(q: Queue<Addr>, base: int, node: Addr, prio: int)
    requires DistinctNodes(q)
    ensures var r := Removed(Rebased(q, base), node);
            && NodeSet(Queued(r, node, prio)) == NodeSet(q) + {node}
            && Position(Queued(r, node, prio), node) < |Queued(r, node, prio)|
  {
    hide Removed, Queued, Position, Rebased, NodeSet;
    var r := Rebased(q, base);
    RebasedSet(q, base);
    RemovedSet(r, node);
    QueuedSet(Removed(r, node), node, prio);
    InSet(Removed(r, node), node);
    QueuedPlace(Removed(r, node), node, prio);
  }

  lemma InSet(q: Queue<Addr>, node: Addr)
    requires node !in NodeSet(q)
    ensures forall i :: 0 <= i < |q| ==> q[i].node != node
  {
  }

  /** Changing one node's priority leaves the keys of all others current. */
  lemma OthersCurrent(prio: map<Addr, int>, q: Queue<Addr>, node: Addr, p: int)
    requires KeysCurrent(prio, q) && DistinctNodes(q)
    ensures KeysCurrent(prio[node := p], Removed(q, node))
  {
    PositionIsFirst(q, node);
    hide Position;
    var r, k := Removed(q, node), Position(q, node);
    forall i | 0 <= i < |r|
      ensures r[i].node in prio && r[i].node != node && prio[r[i].node] == r[i].key
    {
      assert k < |q| ==> r[i] == q[if i < k then i else i + 1];
    }
  }

  lemma NotQueued(head: Addr, q: Queue<Addr>, node: Addr)
    requires Outside(head, q, node)
    ensures Position(q, node) == |q| && Removed(q, node) == q
    ensures forall i :: 0 <= i < |q| ==> q[i].node != node
  {
    forall i | 0 <= i < |q|
      ensures q[i].node != node
    {
      assert Disjoint(q[i].node, node);
    }
    PositionUnique(q, node, |q|);
  }

  lemma QueuedPlace(q: Queue<Addr>, node: Addr, key: int)
    requires forall i :: 0 <= i < |q| ==> q[i].node != node
    ensures Position(Queued(q, node, key), node) < |Queued(q, node, key)|
  {
    QueuedPosition(q, Entry(node, key));
  }

  lemma StillQueued(q: Queue<Addr>, other: Addr, node: Addr, key: int)
    requires Position(q, other) < |q|
    ensures Position(Queued(q, node, key), other) < |Queued(q, node, key)|
  {
    PositionIsFirst(q, other);
    var r, p := Queued(q, node, key), ScanPos(q, key);
    PositionIsFirst(r, other);
    hide Position, ScanPos;
    var k := Position(q, other);
    assert r[if k < p then k else k + 1] == q[k];
  }

  /** The list nodes of threads. */
  ghost function ListNodes(threads: set<Addr>): set<Addr> {
    set t | t in threads :: ListNode(t)
  }

  lemma OneMore(threads: set<Addr>, thread: Addr)
    requires thread !in threads
    ensures ListNodes(threads + {thread}) == ListNodes(threads) + {ListNode(thread)} &&
            ListNode(thread) !in ListNodes(threads)
  {
  }

  /** The same nodes are queued, in whatever order. */
  ghost predicate SameQueued(q: Queue<Addr>, r: Queue<Addr>) {
    forall n :: IsQueued(q, n) <==> IsQueued(r, n)
  }

  lemma SameSet(q: Queue<Addr>, r: Queue<Addr>)
    requires NodeSet(q) == NodeSet(r)
    ensures SameQueued(q, r)
  {
    forall n
      ensures IsQueued(q, n) <==> n in NodeSet(q)
      ensures IsQueued(r, n) <==> n in NodeSet(r)
    {
    }
  }

  lemma DispatchedSame(q: Queue<Addr>)
    requires q != []
    ensures SameQueued(q, Dispatched(q).q)
  {
    QueuedSet(q[1..], q[0].node, q[0].key);
    assert q == [q[0]] + q[1..];
    assert forall i :: 0 <= i < |q| - 1 ==> q[1..][i] == q[i + 1];
    assert NodeSet(q) == NodeSet(q[1..]) + {q[0].node};
    SameSet(q, Dispatched(q).q);
  }

  lemma PreemptedSame(q: Queue<Addr>, base: int, node: Addr, prio: int)
    requires DistinctNodes(q) && Position(q, node) < |q|
    ensures SameQueued(q, Queued(Removed(Rebased(q, base), node), node, prio))
  {
    PreemptedSet(q, base, node, prio);
    assert q[Position(q, node)].node in NodeSet(q);
    SameSet(q, Queued(Removed(Rebased(q, base), node), node, prio));
  }

  lemma OutsideNotQueued(head: Addr, q: Queue<Addr>, node: Addr)
    requires Outside(head, q, node)
    ensures !IsQueued(q, node)
  {
  }

  lemma NewOutside(m: Links, head: Addr, q: Queue<Addr>, pool: set<Addr>, node: Addr)
    requires PoolOk(m, head, q, pool) && Separate(head, pool + {node}) && node !in pool
    ensures Outside(head, q, node)
  {
    forall i | 0 <= i < |q|
      ensures Disjoint(q[i].node, node)
    {
      assert IsQueued(q, q[i].node);
    }
  }

  lemma FirstPlace(q: Queue<Addr>)
    requires q != []
    ensures Position(q, q[0].node) == 0 && Removed(q, q[0].node) == q[1..]
  {
  }

  lemma PoolFacts(m: Links, head: Addr, q: Queue<Addr>, pool: set<Addr>, node: Addr)
    requires PoolOk(m, head, q, pool) && node in pool
    ensures Separate(head, pool) && (!IsQueued(q, node) ==> Outside(head, q, node) && Detached(m, node))
    ensures Position(q, node) == |q| ==> Outside(head, q, node) && Detached(m, node)
    ensures IsQueued(q, node) <==> Position(q, node) < |q|
  {
    PoolAt(m, head, q, pool, node);
    QueuedIffPlace(q, node);
  }

  lemma RebasedAt(head: Addr, q: Queue<Addr>, base: int, node: Addr)
    ensures Position(Rebased(q, base), node) == Position(q, node) && |Rebased(q, base)| == |q|
    ensures Outside(head, q, node) ==> Outside(head, Rebased(q, base), node)
  {
    RemovedRebased(q, base, node);
  }

  lemma KeyAt(prio: map<Addr, int>, q: Queue<Addr>, i: nat)
    requires KeysCurrent(prio, q) && i < |q|
    ensures q[i].node in prio && prio[q[i].node] == q[i].key
  {
  }

  // all there is to see of the scheduler
  datatype Snap = Snap(current: Addr, q: Queue<Addr>, state: map<Addr, ThreadState>, time: map<Addr, nat>, locks: nat)

  /** What a timer tick does: nothing if the current thread does not run; count it, if its slice is not
      over or nobody is queued; put it last, if the lock is held; or else one round-robin step. */
  ghost predicate Ticked(s: Snap, s': Snap) {
    s.current in s.state && s.current in s.time &&
    var v, t := Sched(ListNode(s.current), s.q), s.time[s.current := s.time[s.current] + 1];
    if s.state[s.current] != Running then s' == s
    else if s.time[s.current] + 1 < SCHED_TIME_SLICE || s.q == [] then s' == s.(time := t)
    else if s.locks > 0 then s' == s.(q := Preempted(v), state := s.state[s.current := Ready], time := t)
    else
      && Sched(ListNode(s'.current), s'.q) == Expired(v) && s'.locks == s.locks
      && s'.state == s.state[s.current := Ready][s'.current := Running] && s'.time == t[s'.current := 0]
  }

  class Scheduler {
    const list: PList
    var current: Addr
    var locks: nat
    var state: map<Addr, ThreadState>
    var time: map<Addr, nat>

    ghost function View(): Sched<Addr>
      reads this, list
    {
      Sched(ListNode(current), list.Q)
    }

    ghost function Now(): Snap
      reads this, list
    {
      Snap(current, list.Q, state, time, locks)
    }

    /** None but the current thread is marked as running. */
    ghost predicate ThreadsOk()
      reads this, list
    {
      && current in state && current in time && ListNode(current) in list.prio
      && (forall n :: n in NodeSet(list.Q) ==> n >= THREAD_LIST && n - THREAD_LIST in state && n - THREAD_LIST in time)
      && (forall n :: n in NodeSet(list.Q) && n != ListNode(current) ==> state[n - THREAD_LIST] != Running)
    }

    /** The threads do not overlap, and each is queued or linked to itself on both rings. */
    ghost predicate Linked()
      reads this, list, list.mem
    {
      list.Valid() && PoolOk(list.mem.m, list.head, list.Q, ListNodes(state.Keys))
    }

    ghost predicate Valid()
      reads this, list, list.mem
    {
      && Linked() && KeysCurrent(list.prio, list.Q) && ThreadsOk()
      && (state[current] == Running ==> Position(list.Q, ListNode(current)) < |list.Q|)
    }

    /** `sched_init` with the boot thread: created, made current, not queued. */
    constructor (mem: Memory, head: Addr, thread: Addr)
      requires head + HEAD_SIZE <= ListNode(thread) || ListNode(thread) + NODE_SIZE <= head
      modifies mem
      ensures Valid() && fresh(list) && list.mem == mem
      ensures View() == Sched(ListNode(thread), []) && locks == 0
      ensures state == map[thread := Ready] && time == map[thread := 0]
    {
      list := new PList(mem, head);
      current, locks := thread, 0;
      state, time := map[thread := Ready], map[thread := 0];
      new;
      ghost var m := mem.m;
      list.NodeInit(ListNode(thread), 0);
      assert PoolOk(m, head, [], {});
      PoolJoined(m, mem.m, head, [], ListNode(thread), {});
      assert ListNodes({thread}) == {} + {ListNode(thread)};
      assert state.Keys == {thread};
    }

    /** `sched_lock` */
    method Lock()
      modifies this`locks
      ensures locks == old(locks) + 1
    {
      locks := locks + 1;
    }

    /** `sched_unlock` */
    method Unlock()
      requires locks > 0
      modifies this`locks
      ensures locks == old(locks) - 1
    {
      locks := locks - 1;
    }

    /** `sched_thread_queue`: a thread that is not queued goes behind its equals, whoever runs. */
    method Enqueue(thread: Addr)
      requires Linked() && KeysCurrent(list.prio, list.Q) && thread in state && ListNode(thread) in list.prio
      requires !IsQueued(list.Q, ListNode(thread))
      modifies list`Q, list.mem
      ensures Linked() && list.Q == Queued(old(list.Q), ListNode(thread), list.prio[ListNode(thread)])
      ensures old(Valid()) && thread in time && state[thread] != Running ==> Valid()
    {
      hide ListOk, Queued, Position, Outside, Detached, NodeSet, PoolOk, OthersKept;
      var node := ListNode(thread);
      ghost var q, m := list.Q, list.mem.m;
      PoolFacts(m, list.head, q, ListNodes(state.Keys), node);
      QueuedSet(q, node, list.prio[node]);
      if current in state && state[current] == Running && Position(q, ListNode(current)) < |q| {
        StillQueued(q, ListNode(current), node, list.prio[node]);
      }
      QueuedCurrent(list.prio, q, node);
      list.Add(node);
      PoolAdded(m, list.mem.m, list.head, q, node, list.prio[node], ListNodes(state.Keys));
    }

    /** `sched_thread_unqueue` */
    method Unqueue(thread: Addr)
      requires Linked() && thread in state
      modifies list`Q, list.mem
      ensures Linked() && list.Q == Removed(old(list.Q), ListNode(thread)) && !IsQueued(list.Q, ListNode(thread))
    {
      hide ListOk, Removed, Position, Outside, Detached, PoolOk, OthersKept;
      var node := ListNode(thread);
      ghost var q, m := list.Q, list.mem.m;
      PoolFacts(m, list.head, q, ListNodes(state.Keys), node);
      list.Remove(node);
      PoolRemoved(m, list.mem.m, list.head, q, node, ListNodes(state.Keys));
      OutsideNotQueued(list.head, list.Q, node);
    }

    /** `sched_thread_update`: a thread that changes state goes behind its equals. */
    method Update(thread: Addr, s: ThreadState)
      requires Linked() && thread in state && ListNode(thread) in list.prio
      requires KeysCurrent(list.prio, Removed(list.Q, ListNode(thread)))
      modifies this`locks, this`state, list`Q, list.mem
      ensures Linked() && locks == old(locks) && state == old(state)[thread := s]
      ensures list.Q == if old(state)[thread] == s then old(list.Q)
                        else Queued(Removed(old(list.Q), ListNode(thread)), ListNode(thread),
                                    list.prio[ListNode(thread)])
    {
      hide ListOk, Removed, Queued, PoolOk, Position, KeysCurrent;
      if state[thread] == s {
        assert state == state[thread := s];
        return;
      }
      Lock();
      Unqueue(thread);
      assert state[thread := s].Keys == state.Keys;
      state := state[thread := s];
      Enqueue(thread);
      Unlock();
    }

    /** `sched_thread_create`, in memory that was free: the thread is ready, and not queued yet. */
    method Create(thread: Addr)
      requires Valid() && thread !in state && Separate(list.head, ListNodes(state.Keys) + {ListNode(thread)})
      modifies this`locks, this`state, this`time, list`prio, list.mem
      ensures Valid() && locks == old(locks) && list.Q == old(list.Q)
      ensures !IsQueued(list.Q, ListNode(thread)) && list.prio == old(list.prio)[ListNode(thread) := 0]
      ensures state == old(state)[thread := Ready] && time == old(time)[thread := 0]
    {
      hide ListOk, Position, Detached, NodeSet, Outside, PoolOk, OthersKept;
      var node := ListNode(thread);
      ghost var m, pool := list.mem.m, ListNodes(state.Keys);
      OneMore(state.Keys, thread);
      NewOutside(m, list.head, list.Q, pool, node);
      NotQueued(list.head, list.Q, node);
      OutsideNotQueued(list.head, list.Q, node);
      Lock();
      assert state[thread := Ready].Keys == state.Keys + {thread};
      state, time := state[thread := Ready], time[thread := 0];
      list.NodeInit(node, 0);
      Unlock();
      PoolJoined(m, list.mem.m, list.head, list.Q, node, pool);
    }

    /** `sched_thread_pop_next`; nobody if the queue is empty. */
    method PopNext() returns (thread: Option<Addr>)
      requires Valid()
      modifies list`Q, list.mem
      ensures Linked() && (thread == None <==> old(list.Q) == [])
      ensures thread == None ==> list.Q == []
      ensures thread != None ==> list.Q == old(list.Q)[1..] && ListNode(thread.value) == old(list.Q)[0].node
      ensures thread != None ==> !IsQueued(list.Q, ListNode(thread.value))
    {
      hide ListOk, PoolOk, NodeSet;
      if list.IsEmpty() {
        return None;
      }
      var node := list.First();
      HeadFacts();
      FirstPlace(list.Q);
      Unqueue(node - THREAD_LIST);
      return Some(node - THREAD_LIST);
    }

    /** `sched_thread_switch`, up to where the stacks are exchanged: `thread`, just popped, becomes
        current and is queued again. */
    method Switch(thread: Addr)
      requires Linked() && ThreadsOk() && KeysCurrent(list.prio, list.Q)
      requires thread in state && thread in time && ListNode(thread) in list.prio
      requires !IsQueued(list.Q, ListNode(thread))
      requires state[thread] != Running && forall n :: n in NodeSet(list.Q) ==> state[n - THREAD_LIST] != Running
      modifies this, list`Q, list.mem
      ensures Valid() && locks == old(locks)
      ensures View() == Sched(ListNode(thread), Queued(old(list.Q), ListNode(thread), list.prio[ListNode(thread)]))
      ensures state == old(state)[thread := Running] && time == old(time)[thread := 0]
    {
      hide ListOk, Queued, Position, Removed, Outside, Detached, KeysCurrent, NodeSet, PoolOk;
      ghost var node := ListNode(thread);
      PoolFacts(list.mem.m, list.head, list.Q, ListNodes(state.Keys), node);
      NotQueued(list.head, list.Q, node);
      QueuedCurrent(list.prio, list.Q, node);
      QueuedSet(list.Q, node, list.prio[node]);
      QueuedPlace(list.Q, node, list.prio[node]);
      if current != thread {
        current := thread;
      }
      time := time[thread := 0];
      Update(thread, Running);
    }

    /** `sched_schedule`: the head of the list runs next.  With nobody queued the processor halts,
        with the lock released, and the loop goes round again at the next interrupt. */
    method Schedule() returns (halted: bool)
      requires Valid()
      modifies this, list`Q, list.mem
      ensures Valid() && locks == old(locks)
      ensures halted == (old(state[current]) != Running && old(list.Q) == [])
      ensures if old(state[current]) == Running || halted then
                View() == old(View()) && state == old(state) && time == old(time)
              else
                View() == Dispatched(old(list.Q)) &&
                state == old(state)[current := Running] && time == old(time)[current := 0]
      ensures SameQueued(old(list.Q), list.Q) && old(list.prio).Keys <= list.prio.Keys
      ensures current == old(current) || IsQueued(old(list.Q), ListNode(current))
    {
      halted := false;
      if state[current] == Running {
        return;
      }
      halted := NextTurn();
    }

    /** One turn of the loop of `sched_schedule`, up to the next halt: the lock is taken, and given
        back by the thread that runs next or before the processor halts. */
    method NextTurn() returns (halted: bool)
      requires Valid() && state[current] != Running
      modifies this, list`Q, list.mem
      ensures Valid() && locks == old(locks) && halted == (old(list.Q) == [])
      ensures if halted then View() == old(View()) && state == old(state) && time == old(time)
              else
                View() == Dispatched(old(list.Q)) &&
                state == old(state)[current := Running] && time == old(time)[current := 0]
      ensures SameQueued(old(list.Q), list.Q) && old(list.prio).Keys <= list.prio.Keys
      ensures current == old(current) || IsQueued(old(list.Q), ListNode(current))
    {
      hide ListOk, Queued, Position, Removed, Outside, Detached, KeysCurrent, NodeSet, PoolOk;
      Lock();
      if list.Q != [] {
        HeadFacts();
        DispatchedSame(list.Q);
      }
      var thread := PopNext();
      if thread != None {
        Switch(thread.value);
      }
      Unlock();
      halted := thread == None;
    }

    /** What is left after the head is taken out. */
    lemma HeadFacts()
      requires Valid() && list.Q != []
      ensures var n := list.Q[0].node;
              && n >= THREAD_LIST && n - THREAD_LIST in state && n - THREAD_LIST in time
              && n in list.prio && list.prio[n] == list.Q[0].key
      ensures KeysCurrent(list.prio, list.Q[1..])
      ensures list.Q[0].node in NodeSet(list.Q) && NodeSet(list.Q[1..]) <= NodeSet(list.Q)
    {
      assert list.Q[0].node in NodeSet(list.Q);
      assert forall i :: 0 <= i < |list.Q| - 1 ==> list.Q[1..][i] == list.Q[i + 1];
    }

    /** The first part of the inner block of `sched_handler`: every priority is re-based, the
        current thread's becomes the highest, in place. */
    method RaisePriority()
      requires Valid() && list.Q != []
      modifies list`prio, list`Q
      ensures Linked() && list.Q == Rebased(old(list.Q), old(list.Q)[0].key)
      ensures KeysCurrent(list.prio, Removed(list.Q, ListNode(current)))
      ensures list.Q != [] && ListNode(current) in list.prio
      ensures list.prio[ListNode(current)] == list.Q[|list.Q| - 1].key + 1
      ensures old(list.prio).Keys <= list.prio.Keys
    {
      hide ListOk, Position, Removed, Outside, Detached, KeysCurrent, Rebased, NodeSet, ThreadsOk, PoolOk;
      PoolRebased(list.mem.m, list.head, list.Q, list.Q[0].key, ListNodes(state.Keys));
      ListFacts(list.mem.m, list.head, list.Q);
      RebasedSet(list.Q, list.Q[0].key);
      ghost var q := Rebased(list.Q, list.Q[0].key);
      KeyAt(list.prio, list.Q, 0);
      list.Rebase(list.prio[list.First()]);
      KeyAt(list.prio, q, |q| - 1);
      OthersCurrent(list.prio, q, ListNode(current), q[|q| - 1].key + 1);
      list.prio := list.prio[ListNode(current) := list.prio[list.Last()] + 1];
    }

    /** The inner block of `sched_handler`: the slice is over, the current thread goes to the back. */
    method Preempt()
      requires Valid() && list.Q != [] && state[current] == Running
      modifies this`locks, this`state, list, list.mem
      ensures Valid() && locks == old(locks) && list.Q == Preempted(old(View())) && list.Q != []
      ensures state == old(state)[current := Ready] && SameQueued(old(list.Q), list.Q)
      ensures old(list.prio).Keys <= list.prio.Keys
    {
      hide SameQueued, ListOk, Queued, Position, Removed, Outside, Detached, KeysCurrent, Rebased, NodeSet, PoolOk;
      ghost var q0, base, node := list.Q, list.Q[0].key, ListNode(current);
      ListFacts(list.mem.m, list.head, q0);
      RebasedAt(list.head, q0, base, node);
      RaisePriority();
      PreemptedSet(q0, base, node, list.prio[node]);
      PreemptedSame(q0, base, node, list.prio[node]);
      QueuedCurrent(list.prio, Removed(Rebased(q0, base), node), node);
      Update(current, Ready);
    }

    /** `sched_handler`: the timer tick.  A slice that is over ends in one round-robin step. */
    method Tick()
      requires Valid()
      modifies this, list, list.mem
      ensures Valid() && locks == old(locks)
      ensures Ticked(old(Now()), Now())
      ensures SameQueued(old(list.Q), list.Q) && old(list.prio).Keys <= list.prio.Keys
      ensures current == old(current) || IsQueued(old(list.Q), ListNode(current))
    {
      hide ListOk, Queued, Position, Removed, Outside, Detached, KeysCurrent, Preempted, Dispatched, NodeSet, PoolOk;
      if state[current] != Running {
        return;
      }
      Lock();
      var canSched := false;
      time := time[current := time[current] + 1];
      if time[current] >= SCHED_TIME_SLICE {
        if !list.IsEmpty() {
          Preempt();
          canSched := true;
        }
      }
      Unlock();
      if locks == 0 && canSched {
        var halted := Schedule();
      }
    }

    /** The end of `sched_process_fork`: a new thread is queued after whatever ticks fall between its
        creation and then, with the lock released. */
    method CreateAndQueue(thread: Addr, ticks: nat) returns (ghost snaps: seq<Snap>)
      requires Valid() && thread !in state && Separate(list.head, ListNodes(state.Keys) + {ListNode(thread)})
      modifies this, list, list.mem
      ensures Valid() && locks == old(locks) && thread in state && IsQueued(list.Q, ListNode(thread))
      ensures forall n :: n != ListNode(thread) ==> (IsQueued(list.Q, n) <==> IsQueued(old(list.Q), n))
      ensures |snaps| == ticks + 1
      ensures snaps[0] == old(Now()).(state := old(state)[thread := Ready], time := old(time)[thread := 0])
      ensures forall i :: 0 <= i < ticks ==> Ticked(snaps[i], snaps[i + 1])
      ensures Now() == snaps[ticks].(q := Queued(snaps[ticks].q, ListNode(thread), list.prio[ListNode(thread)]))
    {
      hide ListOk, Queued, Position, Detached, Outside, PoolOk, Separate, Preempted, Dispatched, NodeSet,
          Expired;
      Create(thread);
      snaps := [Now()];
      var i := 0;
      while i < ticks
        invariant i <= ticks && |snaps| == i + 1 && snaps[i] == Now()
        invariant snaps[0] == old(Now()).(state := old(state)[thread := Ready], time := old(time)[thread := 0])
        invariant forall k :: 0 <= k < i ==> Ticked(snaps[k], snaps[k + 1])
        invariant Valid() && locks == old(locks) && SameQueued(old(list.Q), list.Q)
        invariant thread in state && thread in time && ListNode(thread) in list.prio
        invariant thread != current && state[thread] != Running && !IsQueued(list.Q, ListNode(thread))
      {
        Tick();
        i := i + 1;
        snaps := snaps + [Now()];
      }
      ghost var key := list.prio[ListNode(thread)];
      forall n
        ensures IsQueued(Queued(list.Q, ListNode(thread), key), n) <==> IsQueued(list.Q, n) || n == ListNode(thread)
      {
        QueuedMembers(list.Q, ListNode(thread), key, n);
      }
      Enqueue(thread);
    }
  }
}
