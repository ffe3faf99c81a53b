/** Whole runs of the scheduler in memory: slice after slice, timer tick by timer tick. */
module SchedRuns {
  import opened DList
  import opened PListSpec
  import opened PList
  import opened SchedSpec
  import Scheduler

  /** The current thread runs, and nobody holds the lock. */
  ghost predicate Turning(s: Scheduler.Scheduler)
    reads s, s.list, s.list.mem
  {
    s.Valid() && s.locks == 0 && s.current in s.state && s.state[s.current] == Scheduler.Running
  }

  /** What runs is queued, and the queue in memory is in order. */
  lemma TurningOk(s: Scheduler.Scheduler)
    requires Turning(s)
    ensures Ok(s.View()) && s.list.Q != []
  {
    hide Position;
    DistinctNodesOf(s.list.head, s.list.Q);
  }

  /** The ticks up to the end of the slice. */
  method EndSlice(s: Scheduler.Scheduler)
    requires Turning(s)
    modifies s, s.list, s.list.mem
    ensures Turning(s) && s.View() == Expired(old(s.View()))
  {
    hide Ok, Expired, Preempted, ListOk, Position;
    TurningOk(s);
    while s.time[s.current] + 1 < Scheduler.SCHED_TIME_SLICE
      invariant Turning(s) && s.View() == old(s.View())
      decreases Scheduler.SCHED_TIME_SLICE - s.time[s.current]
    {
      TurningOk(s);
      s.Tick();
    }
    TurningOk(s);
    s.Tick();
  }

  /** `n` slices, with nobody created or exiting: `ran` are the threads that ran, in order.  Every queued
      thread is among them once there are as many slices as threads, and from equal priorities on no
      priority gets above the number of threads. */
  method RunSlices(s: Scheduler.Scheduler, n: nat) returns (ran: seq<Addr>)
    requires Turning(s)
    modifies s, s.list, s.list.mem
    ensures Turning(s) && s.View() == Expiries(old(s.View()), n)
    ensures |ran| == n + 1 && forall i :: 0 <= i <= n ==> ran[i] == Expiries(old(s.View()), i).running
    ensures n <= |old(s.list.Q)| ==> Round(s.View()) == Turned(Round(old(s.View())), n)
    ensures n + 1 >= |old(s.list.Q)| ==> forall i :: 0 <= i < |old(s.list.Q)| ==> old(s.list.Q)[i].node in ran
    ensures n > 0 && (forall i :: 0 <= i < |old(s.list.Q)| ==> old(s.list.Q)[i].key == old(s.list.Q)[0].key) ==>
              forall i :: 0 <= i < |s.list.Q| ==> 0 <= s.list.Q[i].key <= |old(s.list.Q)|
  {
    hide Ok, Expired, ListOk, Position, Round, Turned;
    TurningOk(s);
    ghost var v := s.View();
    ran := [Scheduler.ListNode(s.current)];
    var k := 0;
    while k < n
      invariant k <= n && Turning(s) && s.View() == Expiries(v, k)
      invariant |ran| == k + 1 && forall i :: 0 <= i <= k ==> ran[i] == Expiries(v, i).running
    {
      EndSlice(s);
      k := k + 1;
      ran := ran + [Scheduler.ListNode(s.current)];
    }
    if n <= |v.q| {
      RoundTurns(v, n);
    }
    forall i | 0 <= i < |v.q| && n + 1 >= |v.q|
      ensures v.q[i].node in ran
    {
      EveryThreadRuns(v, i);
      var j :| 0 <= j < |v.q| && Expiries(v, j).running == v.q[i].node;
      assert ran[j] == v.q[i].node;
    }
    if n > 0 && forall i :: 0 <= i < |v.q| ==> v.q[i].key == v.q[0].key {
      PrioritiesStaySmall(v, n);
    }
  }
}
