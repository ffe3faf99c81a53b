/** Whole runs of list operations: the queue is always the one sort of its members by priority
    and, among equals, by how long they have been waiting. */
module PListRuns {
  import opened DList
  import opened PListSpec

  datatype Op<T> = AddOp(node: T, prio: int) | RemoveOp(node: T) | RequeueOp(node: T)

  /** A queue with the time each node was last put into it. */
  datatype State<T> = State(q: Queue<T>, since: map<T, nat>, clock: nat)

  /** One call.  A node that is queued is not added, one that is not is not requeued. */
  function Step<T(==)>(s: State<T>, op: Op<T>): State<T> {
    match op
    case AddOp(node, prio) =>
      if Position(s.q, node) < |s.q| then s
      else State(Queued(s.q, node, prio), s.since[node := s.clock], s.clock + 1)
    case RemoveOp(node) =>
      s.(q := Removed(s.q, node))
    case RequeueOp(node) =>
      var k := Position(s.q, node);
      if k == |s.q| then s
      else State(Queued(Removed(s.q, node), node, s.q[k].key), s.since[node := s.clock], s.clock + 1)
  }

  function Run<T(==)>(s: State<T>, ops: seq<Op<T>>): State<T> {
    if ops == [] then s else Step(Run(s, ops[..|ops| - 1]), ops[|ops| - 1])
  }

  /** Who is queued, and under which priority, told from the calls alone. */
  function Live<T>(ops: seq<Op<T>>): map<T, int> {
    if ops == [] then map[]
    else
      var m := Live(ops[..|ops| - 1]);
      match ops[|ops| - 1]
      case AddOp(node, prio) => if node in m then m else m[node := prio]
      case RemoveOp(node) => m - {node}
      case RequeueOp(node) => m
  }

  /** By priority, then first come first served. */
  ghost predicate Before<T>(s: State<T>, a: Entry<T>, b: Entry<T>)
    requires a.node in s.since && b.node in s.since
  {
    a.key < b.key || (a.key == b.key && s.since[a.node] < s.since[b.node])
  }

  ghost predicate Ordered<T>(s: State<T>) {
    && (forall i :: 0 <= i < |s.q| ==> s.q[i].node in s.since && s.since[s.q[i].node] < s.clock)
    && (forall i, j :: 0 <= i < j < |s.q| ==> s.q[i].node != s.q[j].node && Before(s, s.q[i], s.q[j]))
  }

  ghost predicate Holds<T(!new)>(q: Queue<T>, m: map<T, int>) {
    forall n, p :: (n in m && m[n] == p) <==> Entry(n, p) in q
  }

  /** An entry that comes after every entry of the same key can go behind all of them. */
  lemma InsertOrdered<T>(s: State<T>, s': State<T>, p: nat, e: Entry<T>)
    requires Ordered(s) && p <= |s.q| && s' == State(InsertAt(s.q, p, e), s.since[e.node := s.clock], s.clock + 1)
    requires forall i :: 0 <= i < |s.q| ==> s.q[i].node != e.node
    requires forall i :: 0 <= i < p ==> s.q[i].key <= e.key
    requires forall i :: p <= i < |s.q| ==> e.key < s.q[i].key
    ensures Ordered(s')
  {
    hide InsertAt;
    var q, q' := s.q, s'.q;
    forall i, j | 0 <= i < j < |q'|
      ensures q'[i].node != q'[j].node && q'[i].node in s'.since && q'[j].node in s'.since && Before(s', q'[i], q'[j])
    {
      if i != p && j != p {
        assert Before(s, q[if i < p then i else i - 1], q[if j < p then j else j - 1]);
      }
    }
    forall i | 0 <= i < |q'|
      ensures q'[i].node in s'.since && s'.since[q'[i].node] < s'.clock
    {
    }
  }

  lemma FrontFirst<T>(s: State<T>, j: nat)
    requires Ordered(s) && j < |s.q|
    ensures j == 0 || Before(s, s.q[0], s.q[j])
  {
  }

  lemma QueuedOrdered<T>(s: State<T>, node: T, prio: int)
    requires Ordered(s) && Position(s.q, node) == |s.q|
    ensures Ordered(State(Queued(s.q, node, prio), s.since[node := s.clock], s.clock + 1))
  {
    hide Position, ScanPos;
    var q, p := s.q, ScanPos(s.q, prio);
    PositionIsFirst(q, node);
    ScanPosStops(q, prio);
    forall i | p <= i < |q|
      ensures prio < q[i].key
    {
      FrontFirst(s.(q := q[p..]), i - p);
    }
    InsertOrdered(s, State(Queued(q, node, prio), s.since[node := s.clock], s.clock + 1), p, Entry(node, prio));
  }

  lemma RemovedOrdered<T>(s: State<T>, node: T)
    requires Ordered(s)
    ensures Ordered(s.(q := Removed(s.q, node)))
    ensures Position(Removed(s.q, node), node) == |Removed(s.q, node)|
  {
  }

  /** Every run keeps the order. */
  lemma {:induction false} RunOrdered<T>(s: State<T>, ops: seq<Op<T>>)
    requires Ordered(s)
    ensures Ordered(Run(s, ops))
  {
    if ops != [] {
      var s1 := Run(s, ops[..|ops| - 1]);
      RunOrdered(s, ops[..|ops| - 1]);
      match ops[|ops| - 1]
      case AddOp(node, prio) =>
        if Position(s1.q, node) == |s1.q| {
          QueuedOrdered(s1, node, prio);
        }
      case RemoveOp(node) =>
        RemovedOrdered(s1, node);
      case RequeueOp(node) =>
        var k := Position(s1.q, node);
        if k < |s1.q| {
          RemovedOrdered(s1, node);
          QueuedOrdered(s1.(q := Removed(s1.q, node)), node, s1.q[k].key);
        }
    }
  }

  lemma InsertHolds<T(!new)>(q: Queue<T>, m: map<T, int>, node: T, prio: int)
    requires Holds(q, m) && node !in m
    ensures Holds(Queued(q, node, prio), m[node := prio])
  {
    var p := ScanPos(q, prio);
    assert q == q[..p] + q[p..];
  }

  lemma PositionLive<T(!new)>(q: Queue<T>, m: map<T, int>, node: T)
    requires Holds(q, m)
    ensures Position(q, node) < |q| <==> node in m
    ensures node in m ==> q[Position(q, node)].key == m[node]
  {
    var k := Position(q, node);
    PositionIsFirst(q, node);
    if k < |q| {
      assert q[k] == Entry(node, q[k].key);
    }
    if node in m {
      assert Entry(node, m[node]) in q;
    }
  }

  lemma RemoveHolds<T(!new)>(q: Queue<T>, m: map<T, int>, node: T)
    requires Holds(q, m) && DistinctNodes(q)
    ensures Holds(Removed(q, node), m - {node})
  {
    var k := Position(q, node);
    if k < |q| {
      assert q == q[..k] + [q[k]] + q[k + 1..];
      forall n, p
        ensures (n in m - {node} && (m - {node})[n] == p) <==> Entry(n, p) in Removed(q, node)
      {
        if Entry(n, p) in Removed(q, node) {
          var i :| 0 <= i < |q| - 1 && Removed(q, node)[i] == Entry(n, p);
          assert q[if i < k then i else i + 1] in q;
        }
      }
    } else {
      PositionLive(q, m, node);
      assert m - {node} == m;
    }
  }

  lemma RequeueHolds<T(!new)>(q: Queue<T>, m: map<T, int>, node: T)
    requires DistinctNodes(q) && Holds(q, m) && node in m
    ensures Holds(Queued(Removed(q, node), node, m[node]), m)
  {
    RemoveHolds(q, m, node);
    InsertHolds(Removed(q, node), m - {node}, node, m[node]);
    assert (m - {node})[node := m[node]] == m;
  }

  lemma StepHolds<T(!new)>(s: State<T>, m: map<T, int>, ops: seq<Op<T>>, op: Op<T>)
    requires DistinctNodes(s.q) && Holds(s.q, m) && m == Live(ops)
    ensures Holds(Step(s, op).q, Live(ops + [op]))
  {
    assert (ops + [op])[..|ops|] == ops;
    PositionLive(s.q, m, op.node);
    match op
    case AddOp(node, prio) =>
      if node !in m {
        InsertHolds(s.q, m, node, prio);
      }
    case RemoveOp(node) =>
      RemoveHolds(s.q, m, node);
    case RequeueOp(node) =>
      if node in m {
        RequeueHolds(s.q, m, node);
      }
  }

  /** From the empty list, the queue holds exactly the live nodes under their priorities. */
  lemma {:induction false} RunHolds<T(!new)>(ops: seq<Op<T>>)
    ensures Holds(Run(State([], map[], 0), ops).q, Live(ops))
  {
    hide Step;
    if ops != [] {
      var pre := ops[..|ops| - 1];
      RunHolds(pre);
      RunOrdered(State([], map[], 0), pre);
      StepHolds(Run(State([], map[], 0), pre), Live(pre), pre, ops[|ops| - 1]);
      assert ops == pre + [ops[|ops| - 1]];
    }
  }

  lemma FirstIn<T(!new)>(s: State<T>, t: State<T>, m: map<T, int>)
    requires Holds(s.q, m) && Holds(t.q, m) && s.q != []
    ensures s.q[0] in t.q
  {
    assert Entry(s.q[0].node, s.q[0].key) in s.q;
  }

  lemma SameFirst<T(!new)>(s: State<T>, t: State<T>, m: map<T, int>)
    requires Ordered(s) && Ordered(t) && s.since == t.since && Holds(s.q, m) && Holds(t.q, m)
    requires s.q != []
    ensures t.q != [] && s.q[0] == t.q[0]
  {
    FirstIn(s, t, m);
    FirstIn(t, s, m);
    var i :| 0 <= i < |t.q| && t.q[i] == s.q[0];
    var j :| 0 <= j < |s.q| && s.q[j] == t.q[0];
    FrontFirst(t, i);
    FrontFirst(s, j);
  }

  lemma Rest<T(!new)>(s: State<T>, m: map<T, int>)
    requires Ordered(s) && Holds(s.q, m) && s.q != []
    ensures Ordered(s.(q := s.q[1..])) && Holds(s.q[1..], m - {s.q[0].node})
  {
    RemoveHolds(s.q, m, s.q[0].node);
    RemovedOrdered(s, s.q[0].node);
    assert Removed(s.q, s.q[0].node) == s.q[1..];
  }

  /** There is only one such queue: order and members determine it. */
  lemma {:induction false} OrderedUnique<T(!new)>(s: State<T>, t: State<T>, m: map<T, int>)
    requires Ordered(s) && Ordered(t) && s.since == t.since && Holds(s.q, m) && Holds(t.q, m)
    ensures s.q == t.q
    decreases |s.q|
  {
    if s.q != [] {
      SameFirst(s, t, m);
      Rest(s, m);
      Rest(t, m);
      OrderedUnique(s.(q := s.q[1..]), t.(q := t.q[1..]), m - {s.q[0].node});
      assert s.q == [s.q[0]] + s.q[1..] && t.q == [t.q[0]] + t.q[1..];
    } else if t.q != [] {
      SameFirst(t, s, m);
    }
  }
}
