/**
 kernel/modules/multitasking: the scheduler as a transition system. A task is the address of its task_t.

 Control is in one of three places: in the current task (interrupts are off there), at the test of schedule's
 idle loop, or in the window between its sti and cli, the only place where an interrupt can arrive.
 `arrived` is a history variable: it numbers the tasks in the order they went to sleep.
 */
module Scheduling {
  import opened LinkedList
  import opened Seqs

  type Task = int

  datatype TaskState = WORKING | READY | SLEEP | WAITING | TERMINATED

  datatype Phase = Running | Deciding | Halted

  datatype Sleeper = Sleeper(awake: int, task: Task)

  datatype State = State(
    current: Task,
    ready: seq<Task>,
    sleeping: seq<Sleeper>,
    terminated: seq<Task>,
    state: map<Task, TaskState>,
    clock: int,
    postponed: bool,
    interrupts: bool,
    phase: Phase,
    arrived: map<Task, int>,
    arrivals: int)

  const TICK := 10000  // 1000000 / TICK_HZ

  // ---- steps ----

  /** schedule(), up to its idle loop. */
  function Schedule(s: State): State {
    if s.postponed then s else s.(postponed := true, phase := Deciding)
  }

  function SetState(s: State, t: Task, st: TaskState): State {
    s.(state := s.state[t := st])
  }

  function Yield(s: State): State {
    Schedule(SetState(s, s.current, READY).(ready := s.ready + [s.current]))
  }

  function BlockTask(s: State, reason: TaskState): State {
    Schedule(SetState(s, s.current, reason))
  }

  function UnblockTask(s: State, t: Task): State {
    Schedule(SetState(s, t, READY).(ready := s.ready + [t]))
  }

  predicate AddComparator(prev: Sleeper, add: Sleeper, next: Sleeper) {
    add.awake <= next.awake
  }

  function NanosleepUntil(s: State, time: int): State {
    if time <= s.clock then s
    else
      var sleeper := Sleeper(time, s.current);
      BlockTask(s.(sleeping := Inserted(s.sleeping, sleeper, AddComparator),
                   arrived := s.arrived[s.current := s.arrivals], arrivals := s.arrivals + 1), SLEEP)
  }

  function TerminateTask(s: State, t: Task): State {
    Schedule(SetState(s, t, TERMINATED).(terminated := s.terminated + [t]))
  }

  function CreateTask(s: State, t: Task): State {
    SetState(s, t, READY).(ready := s.ready + [t])
  }

  /** The loop of the timer's interrupt_handler. */
  function Drain(s: State): State
    decreases |s.sleeping|
  {
    if s.sleeping == [] || s.sleeping[0].awake > s.clock then s
    else
      var t := s.sleeping[0].task;
      Drain(SetState(s, t, READY).(sleeping := s.sleeping[1..], ready := [t] + s.ready))
  }

  function InterruptHandler(s: State): State {
    Schedule(Drain(s.(clock := s.clock + TICK)))
  }

  /** The idle loop's test: go and wait for an interrupt, or switch to the first ready task. */
  function Decide(s: State): State {
    if s.ready == [] then s.(interrupts := true, phase := Halted)
    else SetState(s, s.ready[0], WORKING).(postponed := false, phase := Running, current := s.ready[0],
        ready := s.ready[1..])
  }

  function Cli(s: State): State {
    s.(interrupts := false, phase := Deciding)
  }

  datatype Event =
    | EYield | EWait | ESleep(time: int) | ETerminate | ECreate(task: Task)
    | EDecide | ECli | ETick | EUnblock(waiting: Task)

  /** What may happen next: tasks act while they run, interrupts arrive only while they are enabled. */
  predicate Enabled(s: State, e: Event) {
    match e
    case EYield => s.phase == Running
    case EWait => s.phase == Running
    case ESleep(_) => s.phase == Running
    case ETerminate => s.phase == Running
    case ECreate(t) => s.phase == Running && t !in s.state
    case EDecide => s.phase == Deciding
    case ECli => s.phase == Halted
    case ETick => s.interrupts
    case EUnblock(t) => s.interrupts && t in s.state && s.state[t] == WAITING
  }

  function Step(s: State, e: Event): State {
    match e
    case EYield => Yield(s)
    case EWait => BlockTask(s, WAITING)
    case ESleep(time) => NanosleepUntil(s, time)
    case ETerminate => TerminateTask(s, s.current)
    case ECreate(t) => CreateTask(s, t)
    case EDecide => Decide(s)
    case ECli => Cli(s)
    case ETick => InterruptHandler(s)
    case EUnblock(t) => UnblockTask(s, t)
  }

  ghost predicate Runs(s: State, es: seq<Event>, end: State)
    decreases |es|
  {
    if es == [] then end == s else Enabled(s, es[0]) && Runs(Step(s, es[0]), es[1..], end)
  }

  // ---- the invariant ----

  function Tasks(sleeping: seq<Sleeper>): seq<Task> {
    seq(|sleeping|, i requires 0 <= i < |sleeping| => sleeping[i].task)
  }

  /** The state field names the place of a task, which is exactly one. */
  ghost predicate Placed(s: State, t: Task)
    requires t in s.state
  {
    && (s.state[t] == WORKING <==> s.phase == Running && t == s.current)
    && (s.state[t] == READY <==> t in s.ready)
    && (s.state[t] == SLEEP <==> t in Tasks(s.sleeping))
    && (s.state[t] == TERMINATED <==> t in s.terminated)
  }

  /** Wake times ascend; among equal ones the last to go to sleep comes first. */
  ghost predicate SleepOrder(s: State) {
    forall i, j :: 0 <= i < j < |s.sleeping| ==>
      s.sleeping[i].awake < s.sleeping[j].awake
      || (s.sleeping[i].awake == s.sleeping[j].awake && Arrival(s, s.sleeping[i]) > Arrival(s, s.sleeping[j]))
  }

  function Arrival(s: State, x: Sleeper): int {
    if x.task in s.arrived then s.arrived[x.task] else -1
  }

  /** A task that is ready on paper, but in no queue and not running: nothing will ever switch to it. */
  ghost predicate Lost(s: State, t: Task) {
    && t in s.state && s.state[t] == READY
    && t !in s.ready && t !in Tasks(s.sleeping) && t !in s.terminated && !(s.phase == Running && t == s.current)
  }

  /** Every task is in its place but the lost ones. */
  ghost predicate Inv(s: State, lost: set<Task>) {
    && (forall t :: t in s.state && t !in lost ==> Placed(s, t))
    && (forall t :: t in lost ==> Lost(s, t))
    && (forall t :: t in s.ready || t in Tasks(s.sleeping) || t in s.terminated || t == s.current ==> t in s.state)
    && Distinct(s.ready) && Distinct(Tasks(s.sleeping)) && Distinct(s.terminated)
    && (s.postponed <==> s.phase != Running) && (s.interrupts <==> s.phase == Halted)
    && SleepOrder(s)
    && (forall i :: 0 <= i < |s.sleeping| ==> s.sleeping[i].task in s.arrived)
    && (forall t :: t in s.arrived ==> s.arrived[t] < s.arrivals)
  }

  /** In init_multitasking before its last line: the boot task works, nothing is asleep, some tasks are created. */
  ghost predicate Init(s: State) {
    && s.phase == Running && !s.postponed && !s.interrupts
    && s.sleeping == [] && s.terminated == [] && s.arrived == map[] && s.arrivals == 0
    && Distinct(s.ready) && s.current !in s.ready
    && s.state.Keys == (set t | t in s.ready) + {s.current}
    && (forall t :: t in s.state ==> s.state[t] == if t == s.current then WORKING else READY)
  }

  lemma CreateInit(s: State, t: Task)
    requires Init(s) && t !in s.state
    ensures Init(CreateTask(s, t))
  {
    AppendedIn(s.ready, t);
  }

  // ---- every step keeps the invariant ----

  lemma AppendedIn<T>(s: seq<T>, x: T)
    ensures forall y :: y in s + [x] <==> y in s || y == x
    ensures forall y :: y in [x] + s <==> y in s || y == x
  {
  }

  lemma YieldInv(s: State, lost: set<Task>)
    requires Inv(s, lost) && s.phase == Running
    ensures Inv(Yield(s), lost)
  {
    AppendedIn(s.ready, s.current);
    assert s.current !in lost && Placed(s, s.current);
    var u := Yield(s);
    forall t | t in u.state && t !in lost ensures Placed(u, t) {
      assert Placed(s, t);
    }
  }

  lemma CreateInv(s: State, t: Task, lost: set<Task>)
    requires Inv(s, lost) && s.phase == Running && t !in s.state
    ensures Inv(CreateTask(s, t), lost)
  {
    AppendedIn(s.ready, t);
    var u := CreateTask(s, t);
    forall r | r in u.state && r !in lost ensures Placed(u, r) {
      assert r != t ==> Placed(s, r);
    }
  }

  lemma UnblockInv(s: State, t: Task, lost: set<Task>)
    requires Inv(s, lost) && s.phase == Halted && t in s.state && s.state[t] == WAITING
    ensures Inv(UnblockTask(s, t), lost)
  {
    AppendedIn(s.ready, t);
    assert t !in lost && Placed(s, t);
    var u := UnblockTask(s, t);
    forall r | r in u.state && r !in lost ensures Placed(u, r) {
      assert Placed(s, r);
    }
  }

  lemma WaitInv(s: State, lost: set<Task>)
    requires Inv(s, lost) && s.phase == Running
    ensures Inv(BlockTask(s, WAITING), lost)
  {
    assert s.current !in lost && Placed(s, s.current);
    var u := BlockTask(s, WAITING);
    forall r | r in u.state && r !in lost ensures Placed(u, r) {
      assert Placed(s, r);
    }
  }

  lemma TerminateInv(s: State, lost: set<Task>)
    requires Inv(s, lost) && s.phase == Running
    ensures Inv(TerminateTask(s, s.current), lost)
  {
    AppendedIn(s.terminated, s.current);
    assert s.current !in lost && Placed(s, s.current);
    var u := TerminateTask(s, s.current);
    forall r | r in u.state && r !in lost ensures Placed(u, r) {
      assert Placed(s, r);
    }
  }

  lemma DecideInv(s: State, lost: set<Task>)
    requires Inv(s, lost) && s.phase == Deciding
    ensures Inv(Decide(s), lost)
  {
    var u := Decide(s);
    if s.ready != [] {
      assert s.ready == [s.ready[0]] + s.ready[1..];
      AppendedIn(s.ready[1..], s.ready[0]);
      assert s.ready[0] !in lost && Placed(s, s.ready[0]);
    }
    forall r | r in u.state && r !in lost ensures Placed(u, r) {
      assert Placed(s, r);
    }
  }

  lemma CliInv(s: State, lost: set<Task>)
    requires Inv(s, lost) && s.phase == Halted
    ensures Inv(Cli(s), lost)
  {
    forall r | r in s.state && r !in lost ensures Placed(Cli(s), r) {
      assert Placed(s, r);
    }
  }

  /** block_task keeps every task in its place exactly for a reason that needs no queue. */
  lemma BlockExact(s: State, reason: TaskState, lost: set<Task>)
    requires Inv(s, lost) && s.phase == Running
    ensures Inv(BlockTask(s, reason), lost) <==> reason == WAITING
  {
    assert s.current !in lost && Placed(s, s.current);
    if reason == WAITING {
      WaitInv(s, lost);
    } else {
      assert !Placed(BlockTask(s, reason), s.current);
    }
  }

  /** For the reason READY the current task is lost, and no other. */
  lemma BlockReadyLoses(s: State, lost: set<Task>)
    requires Inv(s, lost) && s.phase == Running
    ensures Inv(BlockTask(s, READY), lost + {s.current})
  {
    assert s.current !in lost && Placed(s, s.current);
    var u := BlockTask(s, READY);
    forall r | r in u.state && r !in lost + {s.current} ensures Placed(u, r) {
      assert Placed(s, r);
    }
  }

  /** init_multitasking's own block_task(READY) loses the boot task. */
  lemma BootTaskIsLost(s: State)
    requires Init(s)
    ensures !Inv(BlockTask(s, READY), {}) && Inv(BlockTask(s, READY), {s.current})
  {
    InitInv(s);
    BlockExact(s, READY, {});
    BlockReadyLoses(s, {});
    assert {} + {s.current} == {s.current};
  }

  /** An interrupt may unblock exactly the tasks that wait outside the queues; a lost one it would bring back. */
  lemma UnblockExact(s: State, t: Task, lost: set<Task>)
    requires Inv(s, lost) && s.phase == Halted && t in s.state
    ensures Inv(UnblockTask(s, t), lost - {t}) <==> s.state[t] == WAITING || t in lost
  {
    var u := UnblockTask(s, t);
    AppendedIn(s.ready, t);
    if t in lost {
      assert Lost(s, t);
      forall r | r in u.state && r !in lost - {t} ensures Placed(u, r) {
        assert r != t ==> Placed(s, r);
      }
    } else {
      assert lost - {t} == lost;
      assert Placed(s, t);
      if s.state[t] == WAITING {
        UnblockInv(s, t, lost);
      } else if s.state[t] == READY {
        var i :| 0 <= i < |s.ready| && s.ready[i] == t;
        assert u.ready[i] == u.ready[|s.ready|];
      } else {
        assert !Placed(u, t);
      }
    }
  }

  /**
   A task that calls unblock_task goes on to schedule() without having queued itself: it is left working on
   paper and in no queue, unless the task it unblocks is itself.
   */
  lemma UnblockByTaskExact(s: State, t: Task, lost: set<Task>)
    requires Inv(s, lost) && s.phase == Running && t in s.state
    ensures Inv(UnblockTask(s, t), lost) <==> t == s.current
  {
    assert s.current !in lost && Placed(s, s.current);
    if t == s.current {
      YieldInv(s, lost);
    } else {
      assert !Placed(UnblockTask(s, t), s.current);
    }
  }

  /** In the same way terminate_task is right for the current task only. */
  lemma TerminateExact(s: State, t: Task, lost: set<Task>)
    requires Inv(s, lost) && s.phase == Running && t in s.state
    ensures Inv(TerminateTask(s, t), lost) <==> t == s.current
  {
    assert s.current !in lost && Placed(s, s.current);
    if t == s.current {
      TerminateInv(s, lost);
    } else {
      assert !Placed(TerminateTask(s, t), s.current);
    }
  }

  // ---- going to sleep ----

  lemma TasksInserted(s: seq<Sleeper>, k: nat, x: Sleeper)
    requires k <= |s|
    ensures forall t :: t in Tasks(s[..k] + [x] + s[k..]) <==> t in Tasks(s) || t == x.task
  {
    var r := s[..k] + [x] + s[k..];
    forall t ensures t in Tasks(r) <==> t in Tasks(s) || t == x.task {
      if t in Tasks(r) {
        var i :| 0 <= i < |r| && r[i].task == t;
        if i != k {
          var j := if i < k then i else i - 1;
          assert Tasks(s)[j] == t;
        }
      }
      if t in Tasks(s) {
        var i :| 0 <= i < |s| && s[i].task == t;
        var j := if i < k then i else i + 1;
        assert Tasks(r)[j] == t;
      }
      assert Tasks(r)[k] == x.task;
    }
  }

  lemma SleepInv(s: State, time: int, lost: set<Task>)
    requires Inv(s, lost) && s.phase == Running
    ensures Inv(NanosleepUntil(s, time), lost)
  {
    if time > s.clock {
      var x := Sleeper(time, s.current);
      var k := Place(s.sleeping, x, AddComparator, 0);
      TasksInserted(s.sleeping, k, x);
      assert s.current !in lost && Placed(s, s.current);
      assert s.current !in Tasks(s.sleeping);
      var u := NanosleepUntil(s, time);
      forall r | r in u.state && r !in lost ensures Placed(u, r) {
        assert Placed(s, r);
      }
      SleepInsert(s, time, lost);
    }
  }

  /** The list after nanosleep_until, place by place. */
  lemma SleepAt(s: State, time: int, i: nat, lost: set<Task>)
    requires Inv(s, lost) && s.phase == Running && time > s.clock && s.current !in Tasks(s.sleeping)
    requires i < |NanosleepUntil(s, time).sleeping|
    ensures var u, x := NanosleepUntil(s, time), Sleeper(time, s.current);
            var k := Place(s.sleeping, x, AddComparator, 0);
            && |u.sleeping| == |s.sleeping| + 1
            && (i < k ==> u.sleeping[i] == s.sleeping[i] && u.sleeping[i].awake < time)
            && (i == k ==> u.sleeping[i] == x && Arrival(u, x) == s.arrivals)
            && (i > k ==> u.sleeping[i] == s.sleeping[i - 1] && u.sleeping[i].awake >= time)
            && (i != k ==> u.sleeping[i].task != s.current && Arrival(u, u.sleeping[i]) == Arrival(s, u.sleeping[i])
                           && Arrival(u, u.sleeping[i]) < s.arrivals && u.sleeping[i].task in u.arrived)
  {
    var x := Sleeper(time, s.current);
    var k := Place(s.sleeping, x, AddComparator, 0);
    if i != k {
      var j := if i < k then i else i - 1;
      assert Tasks(s.sleeping)[j] == s.sleeping[j].task;
      assert i < k ==> !AddComparator(Before(s.sleeping, i), x, s.sleeping[i]);
      assert k < j ==> s.sleeping[k].awake <= s.sleeping[j].awake;
    }
  }

  /** The list stays sorted, and a task that falls asleep goes before those that wake at the same time. */
  lemma SleepInsert(s: State, time: int, lost: set<Task>)
    requires Inv(s, lost) && s.phase == Running && time > s.clock
    ensures SleepOrder(NanosleepUntil(s, time)) && Distinct(Tasks(NanosleepUntil(s, time).sleeping))
    ensures var u := NanosleepUntil(s, time);
            forall i :: 0 <= i < |u.sleeping| ==> u.sleeping[i].task in u.arrived
  {
    hide Inv, NanosleepUntil, Place;
    var u, x := NanosleepUntil(s, time), Sleeper(time, s.current);
    var k := Place(s.sleeping, x, AddComparator, 0);
    InvParts(s, lost);
    forall i | 0 <= i < |u.sleeping| ensures u.sleeping[i].task in u.arrived {
      SleepAt(s, time, i, lost);
      NewcomerArrived(s, time);
    }
    forall i, j | 0 <= i < j < |u.sleeping|
      ensures u.sleeping[i].task != u.sleeping[j].task
      ensures u.sleeping[i].awake < u.sleeping[j].awake
              || (u.sleeping[i].awake == u.sleeping[j].awake && Arrival(u, u.sleeping[i]) > Arrival(u, u.sleeping[j]))
    {
      SleepAt(s, time, i, lost);
      SleepAt(s, time, j, lost);
      var a, b := if i < k then i else i - 1, if j < k then j else j - 1;
      if i != k && j != k {
        assert Tasks(s.sleeping)[a] == s.sleeping[a].task && Tasks(s.sleeping)[b] == s.sleeping[b].task;
      }
    }
  }

  lemma InvParts(s: State, lost: set<Task>)
    requires Inv(s, lost)
    ensures SleepOrder(s) && Distinct(Tasks(s.sleeping))
    ensures s.phase == Running ==> s.current !in Tasks(s.sleeping)
  {
    assert s.phase == Running ==> s.current !in lost && Placed(s, s.current);
  }

  lemma NewcomerArrived(s: State, time: int)
    requires time > s.clock
    ensures s.current in NanosleepUntil(s, time).arrived
  {
  }

  // ---- the timer tick ----

  /** One turn of the tick's loop. */
  function Wake(s: State): State
    requires s.sleeping != []
  {
    var t := s.sleeping[0].task;
    SetState(s, t, READY).(sleeping := s.sleeping[1..], ready := [t] + s.ready)
  }

  lemma WakeInv(s: State, lost: set<Task>)
    requires Inv(s, lost) && s.phase == Halted && s.sleeping != []
    ensures Inv(Wake(s), lost)
  {
    var u, t := Wake(s), s.sleeping[0].task;
    var all, rest := Tasks(s.sleeping), Tasks(s.sleeping[1..]);
    assert all == [t] + rest;
    AppendedIn(rest, t);
    AppendedIn(s.ready, t);
    assert t !in rest by {
      assert forall j :: 0 <= j < |rest| ==> rest[j] == all[j + 1] && all[0] != all[j + 1];
    }
    assert all[0] == t && t !in lost && Placed(s, t);
    forall r | r in u.state && r !in lost ensures Placed(u, r) {
      assert Placed(s, r);
    }
    assert Distinct(rest) by {
      assert forall j :: 0 <= j < |rest| ==> rest[j] == all[j + 1];
    }
    assert forall i :: 0 <= i < |u.sleeping| ==> u.sleeping[i] == s.sleeping[i + 1];
  }

  lemma {:induction false} DrainInv(s: State, lost: set<Task>)
    requires Inv(s, lost) && s.phase == Halted
    ensures Inv(Drain(s), lost) && Drain(s).phase == Halted
    decreases |s.sleeping|
  {
    if s.sleeping != [] && s.sleeping[0].awake <= s.clock {
      WakeInv(s, lost);
      DrainInv(Wake(s), lost);
    }
  }

  lemma ClockInv(s: State, lost: set<Task>)
    requires Inv(s, lost)
    ensures Inv(s.(clock := s.clock + TICK), lost)
  {
    forall t | t in s.state && t !in lost ensures Placed(s.(clock := s.clock + TICK), t) {
      assert Placed(s, t);
    }
  }

  lemma TickInv(s: State, lost: set<Task>)
    requires Inv(s, lost) && s.phase == Halted
    ensures Inv(InterruptHandler(s), lost)
  {
    ClockInv(s, lost);
    DrainInv(s.(clock := s.clock + TICK), lost);
  }

  /** The sleepers at the front of the list whose time has come. */
  function Due(sleeping: seq<Sleeper>, clock: int): (n: nat)
    ensures n <= |sleeping|
    ensures forall i :: 0 <= i < n ==> sleeping[i].awake <= clock
    ensures n < |sleeping| ==> sleeping[n].awake > clock
  {
    if sleeping == [] || sleeping[0].awake > clock then 0 else 1 + Due(sleeping[1..], clock)
  }

  function Reversed<T>(s: seq<T>): seq<T> {
    if s == [] then [] else Reversed(s[1..]) + [s[0]]
  }

  lemma {:induction false} ReversedAt<T>(s: seq<T>, i: nat)
    requires i < |s|
    ensures |Reversed(s)| == |s| && Reversed(s)[i] == s[|s| - 1 - i]
  {
    if |s| > 1 {
      ReversedAt(s[1..], if i < |s| - 1 then i else 0);
    }
  }

  /** The loop moves the due sleepers, reversed, to the front of the ready tasks. */
  lemma {:induction false} DrainMoves(s: State)
    ensures var n := Due(s.sleeping, s.clock);
            && Drain(s).sleeping == s.sleeping[n..]
            && Drain(s).ready == Reversed(Tasks(s.sleeping[..n])) + s.ready
    decreases |s.sleeping|
  {
    var n := Due(s.sleeping, s.clock);
    if n == 0 {
      assert Tasks(s.sleeping[..0]) == [];
    } else {
      var u := Wake(s);
      DrainMoves(u);
      assert Due(u.sleeping, u.clock) == n - 1;
      assert u.sleeping[n - 1..] == s.sleeping[n..];
      var all := Tasks(s.sleeping[..n]);
      assert all[0] == s.sleeping[0].task && all[1..] == Tasks(u.sleeping[..n - 1]);
    }
  }

  /** One tick wakes exactly the tasks whose time has come, and makes them ready in front of the others. */
  lemma TickWakesDue(s: State, lost: set<Task>)
    requires Inv(s, lost) && s.phase == Halted
    ensures var u, n := InterruptHandler(s), Due(s.sleeping, s.clock + TICK);
            && u.ready == Reversed(Tasks(s.sleeping[..n])) + s.ready && u.sleeping == s.sleeping[n..]
            && (forall i :: 0 <= i < |s.sleeping| ==> (i < n <==> s.sleeping[i].awake <= s.clock + TICK))
  {
    var c := s.(clock := s.clock + TICK);
    DrainMoves(c);
    DrainKeepsControl(c);
    DueExact(s, s.clock + TICK);
  }

  lemma DueExact(s: State, clock: int)
    requires SleepOrder(s)
    ensures forall i :: 0 <= i < |s.sleeping| ==> (i < Due(s.sleeping, clock) <==> s.sleeping[i].awake <= clock)
  {
    var n := Due(s.sleeping, clock);
    forall i | 0 <= i < |s.sleeping| ensures i < n <==> s.sleeping[i].awake <= clock {
      if n < i {
        assert s.sleeping[n].awake <= s.sleeping[i].awake;
      }
    }
  }

  /** Tasks that wake with the same tick and asked for the same time become ready in the order they went to sleep. */
  lemma TickFirstComeFirstServed(s: State, i: nat, j: nat, lost: set<Task>)
    requires Inv(s, lost) && s.phase == Halted
    requires i < j < Due(s.sleeping, s.clock + TICK) && s.sleeping[i].awake == s.sleeping[j].awake
    ensures var u, n := InterruptHandler(s), Due(s.sleeping, s.clock + TICK);
            var x, y := s.sleeping[i].task, s.sleeping[j].task;
            && n <= |u.ready| && u.ready[n - 1 - i] == x && u.ready[n - 1 - j] == y
            && x in s.arrived && y in s.arrived && s.arrived[y] < s.arrived[x]
  {
    hide Inv, InterruptHandler, Reversed;
    TickWakesDue(s, lost);
    var n := Due(s.sleeping, s.clock + TICK);
    var woken := Tasks(s.sleeping[..n]);
    ReversedAt(woken, n - 1 - i);
    ReversedAt(woken, n - 1 - j);
    LaterArrival(s, i, j, lost);
  }

  lemma LaterArrival(s: State, i: nat, j: nat, lost: set<Task>)
    requires Inv(s, lost) && i < j < |s.sleeping| && s.sleeping[i].awake == s.sleeping[j].awake
    ensures s.sleeping[i].task in s.arrived && s.sleeping[j].task in s.arrived
    ensures s.arrived[s.sleeping[j].task] < s.arrived[s.sleeping[i].task]
  {
  }

  // ---- runs ----

  lemma StepInv(s: State, e: Event, lost: set<Task>)
    requires Inv(s, lost) && Enabled(s, e)
    ensures Inv(Step(s, e), lost)
  {
    hide Inv;
    InvPhase(s, lost);
    match e
    case EYield => YieldInv(s, lost);
    case EWait => WaitInv(s, lost);
    case ESleep(time) => SleepInv(s, time, lost);
    case ETerminate => TerminateInv(s, lost);
    case ECreate(t) => CreateInv(s, t, lost);
    case EDecide => DecideInv(s, lost);
    case ECli => CliInv(s, lost);
    case ETick => TickInv(s, lost);
    case EUnblock(t) => UnblockInv(s, t, lost);
  }

  lemma InvPhase(s: State, lost: set<Task>)
    requires Inv(s, lost)
    ensures (s.postponed <==> s.phase != Running) && (s.interrupts <==> s.phase == Halted)
  {
  }

  lemma InitInv(s: State)
    requires Init(s)
    ensures Inv(s, {})
  {
    assert Tasks(s.sleeping) == [];
  }

  lemma {:induction false} StepsInv(s: State, es: seq<Event>, end: State, lost: set<Task>)
    requires Inv(s, lost) && Runs(s, es, end)
    ensures Inv(end, lost)
    decreases |es|
  {
    if es != [] {
      StepInv(s, es[0], lost);
      StepsInv(Step(s, es[0]), es[1..], end, lost);
    }
  }

  /**
   The runs of the kernel start with the last line of init_multitasking. In every state they reach each task but
   the boot task is in exactly one place, which its state field names; the boot task stays lost for good.
   */
  lemma RunsInv(boot: State, es: seq<Event>, end: State)
    requires Init(boot) && Runs(BlockTask(boot, READY), es, end)
    ensures Inv(end, {boot.current}) && Lost(end, boot.current)
    ensures forall t :: t in end.state && t != boot.current ==> Placed(end, t)
  {
    BootTaskIsLost(boot);
    StepsInv(BlockTask(boot, READY), es, end, {boot.current});
    hide Runs, Init, Placed, Lost;
    assert boot.current in {boot.current};
  }

  /**
   An interrupt handler only runs while a task switch is postponed, so its own call of schedule leaves
   everything as the handler's work left it: in particular the current task.
   */
  lemma HandlersNeverSwitch(boot: State, es: seq<Event>, end: State, e: Event)
    requires Init(boot) && Runs(BlockTask(boot, READY), es, end) && Enabled(end, e) && (e.ETick? || e.EUnblock?)
    ensures end.postponed && end.phase == Halted
    ensures Step(end, e).current == end.current && Step(end, e).phase == Halted
    ensures e.ETick? ==> Step(end, e) == Drain(end.(clock := end.clock + TICK))
  {
    hide Inv, Drain, Runs, Init;
    RunsInv(boot, es, end);
    InvPhase(end, {boot.current});
    assert end.phase == Halted;
    DrainKeepsControl(end.(clock := end.clock + TICK));
  }

  lemma {:induction false} DrainKeepsControl(s: State)
    ensures Drain(s).current == s.current && Drain(s).phase == s.phase && Drain(s).postponed == s.postponed
    decreases |s.sleeping|
  {
    if s.sleeping != [] && s.sleeping[0].awake <= s.clock {
      DrainKeepsControl(Wake(s));
    }
  }

  function Switches(es: seq<Event>): nat {
    if es == [] then 0 else (if es[0] == EDecide then 1 else 0) + Switches(es[1..])
  }

  /**
   A task at position k of the ready queue becomes current with the (k+1)-th task switch, whatever the tasks
   in between do; until then it moves up one place with every switch.
   */
  lemma {:induction false} ReadyInTurn(s: State, es: seq<Event>, end: State, k: nat, lost: set<Task>)
    requires Inv(s, lost) && s.phase != Halted && k < |s.ready| && Runs(s, es, end) && Switches(es) <= k
    ensures end.phase != Halted && k - Switches(es) < |end.ready| && end.ready[k - Switches(es)] == s.ready[k]
    ensures end.phase == Deciding && Switches(es) == k ==>
              Enabled(end, EDecide) && Step(end, EDecide).current == s.ready[k] && Step(end, EDecide).phase == Running
    decreases |es|
  {
    if es != [] {
      var u, k' := Step(s, es[0]), if es[0] == EDecide then k - 1 else k;
      StepInv(s, es[0], lost);
      assert s.interrupts <==> s.phase == Halted;
      assert u.ready[k'] == s.ready[k];
      ReadyInTurn(u, es[1..], end, k', lost);
    }
  }
}
