/** The lock depth of the scheduler, over every interleaving of threads, timer ticks and calls.

    Each thread has the kernel code it still has to run before it is back in user mode.  A tick or
    a call puts code in front; a context switch goes on with the code of another thread. */
module SchedLocks {
  type Tid = nat

  datatype Op =
    | Lock                 // sched_lock: cli, depth up
    | Unlock               // sched_unlock: depth down, sti when it reaches 0
    | Pop                  // sched_schedule takes the next thread, or halts until there is one
    | SwitchTo(to: Tid)    // sched_switch; ends in sti
    | Schedule             // a call of sched_schedule
    | ScheduleIfUnlocked   // the end of sched_handler
    | Spawn(child: Tid)    // sched_thread_queue of a new thread
    | Halt                 // sys_hlt
    | Return               // end of an interrupt: sti, iret

  type Code = seq<Op>

  datatype State = State(locks: int, enabled: bool, current: Tid, code: map<Tid, Code>)

  datatype Call = Load(child: Tid) | Fork(child: Tid) | Exit | Reschedule

  datatype Event =
    | Step(next: Tid, found: bool)     // the next operation; `next` is what Pop finds, if anything
    | Tick(running: bool, over: bool)  // the timer, with the current thread running, its slice over
    | Enter(call: Call)                // a call from code that holds nothing

  function TickCode(running: bool, over: bool): Code {
    if !running then [Return]
    else if over then [Lock, Lock, Unlock, Unlock, ScheduleIfUnlocked, Return]
    else [Lock, Unlock, Return]
  }

  function CallCode(call: Call): Code {
    match call
    case Load(child) => [Lock, Unlock, Lock, Unlock, Spawn(child), Return]
    case Fork(child) => [Lock, Lock, Unlock, Unlock, Spawn(child), Return]
    case Exit => [Lock, Lock, Unlock, Unlock, Schedule, Return]
    case Reschedule => [Schedule]
  }

  const SCHEDULE_CODE: Code := [Lock, Pop, Unlock]
  // both thread entries start with sched_unlock
  const ENTRY_CODE: Code := [Unlock]

  function Do(s: State, op: Op, rest: Code, next: Tid, found: bool): State {
    match op
    case Lock => s.(locks := s.locks + 1, enabled := false, code := s.code[s.current := rest])
    case Unlock => s.(locks := s.locks - 1, enabled := s.enabled || s.locks == 1, code := s.code[s.current := rest])
    case Pop =>
      s.(code := s.code[s.current := if found then [Lock, Unlock, SwitchTo(next)] + rest
                                     else [Unlock, Halt, Lock, Pop] + rest])
    case SwitchTo(to) =>
      var t := s.(code := s.code[s.current := rest]);
      if to in s.code && to != s.current then t.(current := to, enabled := true) else t
    case Schedule => s.(code := s.code[s.current := SCHEDULE_CODE + rest])
    case ScheduleIfUnlocked => s.(code := s.code[s.current := if s.locks == 0 then SCHEDULE_CODE + rest else rest])
    case Spawn(child) =>
      s.(code := if child in s.code then s.code[s.current := rest] else s.code[s.current := rest][child := ENTRY_CODE])
    case Halt => s.(code := s.code[s.current := rest])
    case Return => s.(enabled := true, code := s.code[s.current := rest])
  }

  function Next(s: State, e: Event): State
    requires s.current in s.code
  {
    var c := s.code[s.current];
    match e
    case Step(next, found) => if c == [] then s else Do(s, c[0], c[1..], next, found)
    case Tick(running, over) =>
      if s.enabled then s.(enabled := false, code := s.code[s.current := TickCode(running, over) + c]) else s
    case Enter(call) =>
      if c == [] then s.(enabled := false, code := s.code[s.current := CallCode(call)]) else s
  }

  /** What an operation does to the depth. */
  function After(op: Op, d: int): int {
    match op
    case Lock => d + 1
    case Unlock => d - 1
    case _ => d
  }

  /** An operation is allowed at depth `d`: no unlock at 0, threads switch only at depth 1, and the
      scheduler is called only at depth 0. */
  predicate Allowed(op: Op, d: int) {
    match op
    case Unlock => d > 0
    case Pop => d == 1
    case SwitchTo(_) => d == 1
    case Schedule => d == 0
    case _ => true
  }

  /** Code goes from depth `d` to depth `d'` by allowed operations. */
  ghost predicate Runs(c: Code, d: int, d': int) {
    if c == [] then d == d' else Allowed(c[0], d) && Runs(c[1..], After(c[0], d), d')
  }

  /** How many unlocks more than locks the code has. */
  function Owes(c: Code): int {
    if c == [] then 0
    else Owes(c[1..]) + if c[0] == Unlock then 1 else if c[0] == Lock then -1 else 0
  }

  /** The current thread's code pays back the depth there is; every other thread's pays back 1. */
  ghost predicate Inv(s: State) {
    && s.current in s.code
    && s.locks >= 0
    && Runs(s.code[s.current], s.locks, 0)
    && (forall t :: t in s.code && t != s.current ==> Runs(s.code[t], 1, 0))
  }

  lemma {:induction false} RunsOwes(c: Code, d: int, d': int)
    requires Runs(c, d, d')
    ensures Owes(c) == d - d'
  {
    if c != [] {
      RunsOwes(c[1..], After(c[0], d), d');
    }
  }

  lemma {:induction false} RunsConcat(a: Code, b: Code, d: int, d1: int, d2: int)
    requires Runs(a, d, d1) && Runs(b, d1, d2)
    ensures Runs(a + b, d, d2)
  {
    if a == [] {
      assert a + b == b;
    } else {
      assert (a + b)[0] == a[0] && (a + b)[1..] == a[1..] + b;
      RunsConcat(a[1..], b, After(a[0], d), d1, d2);
    }
  }

  lemma Runs1(op: Op, d: int)
    requires Allowed(op, d)
    ensures Runs([op], d, After(op, d))
  {
  }

  lemma Runs2(a: Op, b: Op, d: int)
    requires Allowed(a, d) && Allowed(b, After(a, d))
    ensures Runs([a, b], d, After(b, After(a, d)))
  {
    hide Runs;
    Runs1(a, d);
    Runs1(b, After(a, d));
    assert [a, b] == [a] + [b];
    RunsConcat([a], [b], d, After(a, d), After(b, After(a, d)));
  }

  lemma Runs3(a: Op, b: Op, c: Op, d: int)
    requires Allowed(a, d) && Allowed(b, After(a, d)) && Allowed(c, After(b, After(a, d)))
    ensures Runs([a, b, c], d, After(c, After(b, After(a, d))))
  {
    hide Runs;
    Runs2(a, b, d);
    Runs1(c, After(b, After(a, d)));
    assert [a, b, c] == [a, b] + [c];
    RunsConcat([a, b], [c], d, After(b, After(a, d)), After(c, After(b, After(a, d))));
  }

  lemma ScheduleCodeRuns()
    ensures Runs(SCHEDULE_CODE, 0, 0)
  {
    Runs3(Lock, Pop, Unlock, 0);
  }

  lemma TickCodeRuns(running: bool, over: bool, d: nat)
    ensures Runs(TickCode(running, over), d, d)
  {
    Runs1(Return, d);
    if running && over {
      Runs3(Lock, Lock, Unlock, d);
      Runs3(Unlock, ScheduleIfUnlocked, Return, d + 1);
      RunsConcat([Lock, Lock, Unlock], [Unlock, ScheduleIfUnlocked, Return], d, d + 1, d);
      assert TickCode(running, over) == [Lock, Lock, Unlock] + [Unlock, ScheduleIfUnlocked, Return];
    } else if running {
      Runs3(Lock, Unlock, Return, d);
    }
  }

  lemma CallCodeRuns(call: Call)
    ensures Runs(CallCode(call), 0, 0)
  {
    match call
    case Load(child) =>
      Runs3(Lock, Unlock, Lock, 0);
      Runs3(Unlock, Spawn(child), Return, 1);
      RunsConcat([Lock, Unlock, Lock], [Unlock, Spawn(child), Return], 0, 1, 0);
      assert CallCode(call) == [Lock, Unlock, Lock] + [Unlock, Spawn(child), Return];
    case Fork(child) =>
      Runs3(Lock, Lock, Unlock, 0);
      Runs3(Unlock, Spawn(child), Return, 1);
      RunsConcat([Lock, Lock, Unlock], [Unlock, Spawn(child), Return], 0, 1, 0);
      assert CallCode(call) == [Lock, Lock, Unlock] + [Unlock, Spawn(child), Return];
    case Exit =>
      Runs3(Lock, Lock, Unlock, 0);
      Runs3(Unlock, Schedule, Return, 1);
      RunsConcat([Lock, Lock, Unlock], [Unlock, Schedule, Return], 0, 1, 0);
      assert CallCode(call) == [Lock, Lock, Unlock] + [Unlock, Schedule, Return];
    case Reschedule =>
      Runs1(Schedule, 0);
  }

  /** One operation of the current thread keeps every thread's account. */
  lemma DoKeeps(s: State, op: Op, rest: Code, next: Tid, found: bool)
    requires Inv(s) && s.code[s.current] == [op] + rest
    requires Allowed(op, s.locks) && Runs(rest, After(op, s.locks), 0)
    ensures Inv(Do(s, op, rest, next, found))
  {
    ScheduleCodeRuns();
    Runs1(Unlock, 1);
    match op
    case Pop =>
      if found {
        Runs3(Lock, Unlock, SwitchTo(next), 1);
        RunsConcat([Lock, Unlock, SwitchTo(next)], rest, 1, 1, 0);
      } else {
        Runs2(Unlock, Halt, 1);
        Runs2(Lock, Pop, 0);
        assert [Unlock, Halt, Lock, Pop] == [Unlock, Halt] + [Lock, Pop];
        RunsConcat([Unlock, Halt], [Lock, Pop], 1, 0, 1);
        RunsConcat([Unlock, Halt, Lock, Pop], rest, 1, 1, 0);
      }
    case Schedule =>
      RunsConcat(SCHEDULE_CODE, rest, 0, 0, 0);
    case ScheduleIfUnlocked =>
      if s.locks == 0 {
        RunsConcat(SCHEDULE_CODE, rest, 0, 0, 0);
      }
    case _ =>
  }

  lemma NextKeeps(s: State, e: Event)
    requires Inv(s)
    ensures Inv(Next(s, e))
  {
    var c := s.code[s.current];
    match e
    case Step(next, found) =>
      if c != [] {
        assert c == [c[0]] + c[1..];
        DoKeeps(s, c[0], c[1..], next, found);
      }
    case Tick(running, over) =>
      TickCodeRuns(running, over, s.locks);
      RunsConcat(TickCode(running, over), c, s.locks, s.locks, 0);
    case Enter(call) =>
      CallCodeRuns(call);
  }

  /** The boot thread, about to run `kernel_main`. */
  function Boot(): State {
    State(0, false, 0, map[0 := []])
  }

  function Run(es: seq<Event>): (s: State)
    ensures Inv(s)
  {
    if es == [] then Boot()
    else
      var s := Run(es[..|es| - 1]);
      NextKeeps(s, es[|es| - 1]);
      Next(s, es[|es| - 1])
  }

  /** Over any interleaving: the depth never underflows, it is 0 whenever the current thread is
      outside the kernel, and each thread that is switched out owes exactly one unlock. */
  lemma LockDepthConserved(es: seq<Event>)
    ensures var s := Run(es);
            && s.current in s.code && s.locks >= 0
            && (s.code[s.current] == [] ==> s.locks == 0)
            && (s.code[s.current] != [] && s.code[s.current][0] == Unlock ==> s.locks > 0)
            && Owes(s.code[s.current]) == s.locks
            && (forall t :: t in s.code && t != s.current ==> Owes(s.code[t]) == 1)
  {
    hide Run;
    var s := Run(es);
    RunsOwes(s.code[s.current], s.locks, 0);
    forall t | t in s.code && t != s.current
      ensures Owes(s.code[t]) == 1
    {
      RunsOwes(s.code[t], 1, 0);
    }
  }

  // --- interrupts

  /** What comes after an operation at depth `d`: the thread that runs next is followed by an unlock, in
      this thread and in that, and an interrupt returns to where no lock is held, or to an unlock. */
  predicate Followed(op: Op, rest: Code, d: int) {
    match op
    case Pop => rest != [] && rest[0] == Unlock
    case SwitchTo(_) => rest != [] && rest[0] == Unlock
    case Return => d == 0 || (d == 1 && rest != [] && rest[0] == Unlock)
    case _ => true
  }

  ghost predicate Guarded(c: Code, d: int) {
    c == [] || (Followed(c[0], c[1..], d) && Guarded(c[1..], After(c[0], d)))
  }

  /** Interrupts are on only where no lock is held, or where the next thing is to give it back. */
  ghost predicate Masked(s: State)
    requires s.current in s.code
  {
    && Guarded(s.code[s.current], s.locks)
    && (forall t :: t in s.code && t != s.current ==>
          s.code[t] != [] && s.code[t][0] == Unlock && Guarded(s.code[t], 1))
    && (s.enabled ==> s.locks == 0 || (s.locks == 1 && s.code[s.current] != [] && s.code[s.current][0] == Unlock))
  }

  lemma Front(op: Op, rest: Code, d: int)
    requires Followed(op, rest, d) && Guarded(rest, After(op, d))
    ensures Guarded([op] + rest, d)
  {
    assert ([op] + rest)[1..] == rest;
  }

  lemma ScheduleGuarded(rest: Code)
    requires Guarded(rest, 0)
    ensures Guarded(SCHEDULE_CODE + rest, 0)
  {
    Front(Unlock, rest, 1);
    Front(Pop, [Unlock] + rest, 1);
    Front(Lock, [Pop] + ([Unlock] + rest), 0);
    assert SCHEDULE_CODE + rest == [Lock] + ([Pop] + ([Unlock] + rest));
  }

  lemma FoundGuarded(rest: Code, next: Tid)
    requires Guarded(rest, 1) && rest != [] && rest[0] == Unlock
    ensures Guarded([Lock, Unlock, SwitchTo(next)] + rest, 1)
  {
    Front(SwitchTo(next), rest, 1);
    Front(Unlock, [SwitchTo(next)] + rest, 2);
    Front(Lock, [Unlock] + ([SwitchTo(next)] + rest), 1);
    assert [Lock, Unlock, SwitchTo(next)] + rest == [Lock] + ([Unlock] + ([SwitchTo(next)] + rest));
  }

  lemma IdleGuarded(rest: Code)
    requires Guarded(rest, 1) && rest != [] && rest[0] == Unlock
    ensures Guarded([Unlock, Halt, Lock, Pop] + rest, 1)
  {
    Front(Pop, rest, 1);
    Front(Lock, [Pop] + rest, 0);
    Front(Halt, [Lock] + ([Pop] + rest), 0);
    Front(Unlock, [Halt] + ([Lock] + ([Pop] + rest)), 1);
    assert [Unlock, Halt, Lock, Pop] + rest == [Unlock] + ([Halt] + ([Lock] + ([Pop] + rest)));
  }

  lemma TickGuarded(running: bool, over: bool, c: Code, d: int)
    requires Guarded(c, d) && (d == 0 || (d == 1 && c != [] && c[0] == Unlock))
    ensures Guarded(TickCode(running, over) + c, d)
  {
    var r := [Return] + c;
    Front(Return, c, d);
    if running && over {
      Front(ScheduleIfUnlocked, r, d);
      var x := [ScheduleIfUnlocked] + r;
      Front(Unlock, x, d + 1);
      Front(Unlock, [Unlock] + x, d + 2);
      Front(Lock, [Unlock] + ([Unlock] + x), d + 1);
      Front(Lock, [Lock] + ([Unlock] + ([Unlock] + x)), d);
      assert TickCode(running, over) + c == [Lock] + ([Lock] + ([Unlock] + ([Unlock] + x)));
    } else if running {
      Front(Unlock, r, d + 1);
      Front(Lock, [Unlock] + r, d);
      assert TickCode(running, over) + c == [Lock] + ([Unlock] + r);
    }
  }

  lemma CallGuarded(call: Call)
    ensures Guarded(CallCode(call), 0)
  {
    Front(Return, [], 0);
    assert [Return] + [] == [Return];
    match call
    case Load(child) =>
      Front(Spawn(child), [Return], 0);
      Front(Unlock, [Spawn(child), Return], 1);
      Front(Lock, [Unlock, Spawn(child), Return], 0);
      Front(Unlock, [Lock, Unlock, Spawn(child), Return], 1);
      Front(Lock, [Unlock, Lock, Unlock, Spawn(child), Return], 0);
    case Fork(child) =>
      Front(Spawn(child), [Return], 0);
      Front(Unlock, [Spawn(child), Return], 1);
      Front(Unlock, [Unlock, Spawn(child), Return], 2);
      Front(Lock, [Unlock, Unlock, Spawn(child), Return], 1);
      Front(Lock, [Lock, Unlock, Unlock, Spawn(child), Return], 0);
    case Exit =>
      Front(Schedule, [Return], 0);
      Front(Unlock, [Schedule, Return], 1);
      Front(Unlock, [Unlock, Schedule, Return], 2);
      Front(Lock, [Unlock, Unlock, Schedule, Return], 1);
      Front(Lock, [Lock, Unlock, Unlock, Schedule, Return], 0);
    case Reschedule =>
      Front(Schedule, [], 0);
      assert [Schedule] + [] == [Schedule];
  }

  lemma DoMasked(s: State, op: Op, rest: Code, next: Tid, found: bool)
    requires Inv(s) && Masked(s) && s.code[s.current] == [op] + rest && Allowed(op, s.locks)
    requires Followed(op, rest, s.locks) && Guarded(rest, After(op, s.locks))
    ensures Do(s, op, rest, next, found).current in Do(s, op, rest, next, found).code
    ensures Masked(Do(s, op, rest, next, found))
  {
    assert s.code[s.current][0] == op;
    match op
    case Pop =>
      if found {
        FoundGuarded(rest, next);
      } else {
        IdleGuarded(rest);
      }
    case Schedule => ScheduleGuarded(rest);
    case ScheduleIfUnlocked =>
      if s.locks == 0 {
        ScheduleGuarded(rest);
      }
    case Spawn(child) =>
      Front(Unlock, [], 1);
      assert [Unlock] + [] == ENTRY_CODE;
    case _ =>
  }

  lemma NextMasked(s: State, e: Event)
    requires Inv(s) && Masked(s)
    ensures Next(s, e).current in Next(s, e).code && Masked(Next(s, e))
  {
    var c := s.code[s.current];
    match e
    case Step(next, found) =>
      if c != [] {
        assert c == [c[0]] + c[1..];
        DoMasked(s, c[0], c[1..], next, found);
      }
    case Tick(running, over) =>
      if s.enabled {
        TickGuarded(running, over, c, s.locks);
      }
    case Enter(call) =>
      CallGuarded(call);
  }

  /** Over any interleaving interrupts are on only at depth 0, or at depth 1 with the unlock next, so that
      no tick comes between taking the lock and taking the next thread from the list. */
  lemma {:induction false} ListGuarded(es: seq<Event>)
    ensures var s := Run(es);
            && s.current in s.code && Masked(s)
            && (s.code[s.current] != [] && s.code[s.current][0] == Pop ==> !s.enabled && s.locks == 1)
  {
    hide Next;
    if es != [] {
      ListGuarded(es[..|es| - 1]);
      NextMasked(Run(es[..|es| - 1]), es[|es| - 1]);
    }
  }

  /** The last thing a thread does in the kernel turns interrupts on, if not otherwise done. */
  predicate Reopens(c: Code) {
    c == [] || c[|c| - 1] == Return || c[|c| - 1] == Unlock || c[|c| - 1] == Schedule
  }

  ghost predicate Open(s: State)
    requires s.current in s.code
  {
    && (forall t :: t in s.code ==> Reopens(s.code[t]))
    && (s.code[s.current] == [] ==> s.enabled || s == Boot())
  }

  lemma RestReopens(op: Op, rest: Code)
    requires Reopens([op] + rest)
    ensures Reopens(rest) && (rest == [] ==> op == Return || op == Unlock || op == Schedule)
  {
    assert rest != [] ==> ([op] + rest)[|[op] + rest| - 1] == rest[|rest| - 1];
  }

  lemma DoOpen(s: State, op: Op, rest: Code, next: Tid, found: bool)
    requires Inv(s) && Masked(s) && Open(s) && s.code[s.current] == [op] + rest && Allowed(op, s.locks)
    requires Runs(rest, After(op, s.locks), 0) && Followed(op, rest, s.locks)
    requires Do(s, op, rest, next, found).current in Do(s, op, rest, next, found).code
    ensures Open(Do(s, op, rest, next, found))
  {
    RestReopens(op, rest);
    assert s.code[s.current][0] == op;
    var t := Do(s, op, rest, next, found);
    match op
    case Unlock => assert rest == [] ==> s.locks == 1;
    case Pop =>
      var front := if found then [Lock, Unlock, SwitchTo(next)] else [Unlock, Halt, Lock, Pop];
      assert t.code[s.current] == front + rest;
      assert (front + rest)[|front + rest| - 1] == rest[|rest| - 1];
    case Schedule =>
      assert rest != [] ==> (SCHEDULE_CODE + rest)[|SCHEDULE_CODE + rest| - 1] == rest[|rest| - 1];
    case ScheduleIfUnlocked =>
      assert rest != [] ==> (SCHEDULE_CODE + rest)[|SCHEDULE_CODE + rest| - 1] == rest[|rest| - 1];
    case _ =>
  }

  lemma NextOpen(s: State, e: Event)
    requires Inv(s) && Masked(s) && Open(s)
    ensures Next(s, e).current in Next(s, e).code && Open(Next(s, e))
  {
    hide Boot;
    NextKeeps(s, e);
    var c := s.code[s.current];
    match e
    case Step(next, found) =>
      if c != [] {
        assert c == [c[0]] + c[1..];
        DoOpen(s, c[0], c[1..], next, found);
      }
    case Tick(running, over) =>
      var k := TickCode(running, over);
      assert (k + c)[|k + c| - 1] == if c == [] then Return else c[|c| - 1];
    case Enter(_) =>
  }

  /** Over any interleaving: outside the kernel interrupts are on, once the boot thread has made its first
      call. */
  lemma {:induction false} KernelReopens(es: seq<Event>)
    ensures var s := Run(es); s.current in s.code && Open(s)
  {
    hide Next, Masked, Inv;
    if es != [] {
      KernelReopens(es[..|es| - 1]);
      ListGuarded(es[..|es| - 1]);
      NextOpen(Run(es[..|es| - 1]), es[|es| - 1]);
    }
  }
}
