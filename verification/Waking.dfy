/**
 How long tasks wait in kernel/modules/multitasking: nanosleep_until, the place in the ready queue between
 interrupts, and the idle loop, over runs of the transition system.
 */
module Waking {
  import opened LinkedList
  import opened Scheduling
  import opened Seqs

  // ---- nanosleep_until ----

  /**
   The caller goes on, with nothing changed, if and only if the time has passed; otherwise it joins the sleepers
   with that wake time and gives up control, and no other task is touched.
   */
  lemma SleepExact(s: State, time: int, lost: set<Task>)
    requires Inv(s, lost) && s.phase == Running
    ensures var u, t := Step(s, ESleep(time)), s.current;
            && (u.phase == Running && u.current == t <==> time <= s.clock)
            && (time <= s.clock ==> u == s)
            && (time > s.clock ==>
                  && u.phase == Deciding && u.state == s.state[t := SLEEP] && u.ready == s.ready
                  && u.terminated == s.terminated && u.clock == s.clock
                  && multiset(u.sleeping) == multiset(s.sleeping) + multiset{Sleeper(time, t)})
  {
    hide Inserted;
    InvPhase(s, lost);
    hide Inv;
    OneMoreSleeper(s.sleeping, Sleeper(time, s.current));
  }

  lemma OneMoreSleeper(s: seq<Sleeper>, x: Sleeper)
    ensures multiset(Inserted(s, x, AddComparator)) == multiset(s) + multiset{x}
  {
    var k := Place(s, x, AddComparator, 0);
    assert s == s[..k] + s[k..];
  }

  // ---- nobody oversleeps ----

  /** Whoever is asleep sleeps for a time still to come. */
  ghost predicate Timely(s: State) {
    forall i :: 0 <= i < |s.sleeping| ==> s.sleeping[i].awake > s.clock
  }

  function Ticks(es: seq<Event>): nat {
    if es == [] then 0 else (if es[0] == ETick then 1 else 0) + Ticks(es[1..])
  }

  lemma TickTimely(s: State, lost: set<Task>)
    requires Inv(s, lost) && s.phase == Halted
    ensures Timely(InterruptHandler(s)) && InterruptHandler(s).clock == s.clock + 10000
  {
    TickWakesDue(s, lost);
    TickClock(s);
  }

  lemma TickClock(s: State)
    ensures InterruptHandler(s).clock == s.clock + 10000
  {
    DrainClock(s.(clock := s.clock + TICK));
  }

  lemma {:induction false} DrainClock(s: State)
    ensures Drain(s).clock == s.clock
    decreases |s.sleeping|
  {
    if s.sleeping != [] && s.sleeping[0].awake <= s.clock {
      DrainClock(Wake(s));
    }
  }

  lemma SleepTimely(s: State, time: int, lost: set<Task>)
    requires Inv(s, lost) && s.phase == Running && Timely(s)
    ensures Timely(NanosleepUntil(s, time)) && NanosleepUntil(s, time).clock == s.clock
  {
    SleepExact(s, time, lost);
    var u := NanosleepUntil(s, time);
    assert Step(s, ESleep(time)) == u;
    hide Inv, Step, NanosleepUntil;
    if time > s.clock {
      LaterAll(s.sleeping, u.sleeping, Sleeper(time, s.current), s.clock);
    }
  }

  lemma LaterAll(a: seq<Sleeper>, b: seq<Sleeper>, x: Sleeper, clock: int)
    requires multiset(b) == multiset(a) + multiset{x} && x.awake > clock
    requires forall i :: 0 <= i < |a| ==> a[i].awake > clock
    ensures forall i :: 0 <= i < |b| ==> b[i].awake > clock
  {
    forall i | 0 <= i < |b| ensures b[i].awake > clock {
      assert b[i] in multiset(b);
      assert b[i] in a || b[i] == x;
    }
  }

  lemma StepTimely(s: State, e: Event, lost: set<Task>)
    requires Inv(s, lost) && Timely(s) && Enabled(s, e)
    ensures Timely(Step(s, e)) && Step(s, e).clock == s.clock + if e == ETick then 10000 else 0
  {
    InvPhase(s, lost);
    if e.ESleep? {
      SleepTimely(s, e.time, lost);
    } else if e.ETick? {
      TickTimely(s, lost);
    }
  }

  /** Only the timer moves the clock, by 10 milliseconds a tick, and whoever is due is awake after it. */
  lemma {:induction false} RunsTimely(s: State, es: seq<Event>, end: State, lost: set<Task>)
    requires Inv(s, lost) && Timely(s) && Runs(s, es, end)
    ensures Timely(end) && end.clock == s.clock + 10000 * Ticks(es)
    decreases |es|
  {
    if es != [] {
      StepInv(s, es[0], lost);
      StepTimely(s, es[0], lost);
      RunsTimely(Step(s, es[0]), es[1..], end, lost);
    }
  }

  /** After none of the events t is the task that runs. */
  ghost predicate Waits(s: State, es: seq<Event>, t: Task)
    decreases |es|
  {
    es != [] ==> !(Step(s, es[0]).phase == Running && Step(s, es[0]).current == t) && Waits(Step(s, es[0]), es[1..], t)
  }

  /** A task that waits for a time: asleep before it, ready from then on. */
  ghost predicate AsleepOrReady(s: State, t: Task, time: int) {
    && t in s.state
    && if time <= s.clock then s.state[t] == READY && t in s.ready
       else s.state[t] == SLEEP && Sleeper(time, t) in s.sleeping
  }

  lemma InReversed(s: seq<Task>, i: nat)
    requires i < |s|
    ensures s[i] in Reversed(s)
  {
    hide Reversed;
    ReversedAt(s, |s| - 1 - i);
    assert Reversed(s)[|s| - 1 - i] == s[i];
  }

  lemma TickWakes(s: State, t: Task, time: int, lost: set<Task>)
    requires Inv(s, lost) && s.phase == Halted && t !in lost && AsleepOrReady(s, t, time)
    ensures AsleepOrReady(InterruptHandler(s), t, time)
  {
    hide Inv, InterruptHandler, Reversed;
    TickWakesDue(s, lost);
    TickInv(s, lost);
    TickClock(s);
    TickStates(s, lost);
    TickQueues(s, InterruptHandler(s), Due(s.sleeping, s.clock + TICK), t, time);
    Places(InterruptHandler(s), t, time, lost);
  }

  /** In the queues the due sleepers go over to the ready tasks. */
  lemma TickQueues(s: State, u: State, n: nat, t: Task, time: int)
    requires n <= |s.sleeping| && u.clock == s.clock + 10000
    requires u.ready == Reversed(Tasks(s.sleeping[..n])) + s.ready && u.sleeping == s.sleeping[n..]
    requires forall i :: 0 <= i < |s.sleeping| ==> (i < n <==> s.sleeping[i].awake <= u.clock)
    requires if time <= s.clock then t in s.ready else Sleeper(time, t) in s.sleeping
    ensures if time <= u.clock then t in u.ready else Sleeper(time, t) in u.sleeping
  {
    hide Reversed;
    if time > s.clock {
      var i :| 0 <= i < |s.sleeping| && s.sleeping[i] == Sleeper(time, t);
      if i < n {
        assert Tasks(s.sleeping[..n])[i] == t;
        InReversed(Tasks(s.sleeping[..n]), i);
      } else {
        assert u.sleeping[i - n] == Sleeper(time, t);
      }
    }
  }

  lemma TickStates(s: State, lost: set<Task>)
    requires Inv(s, lost) && s.phase == Halted
    ensures InterruptHandler(s).state.Keys == s.state.Keys
  {
    ClockInv(s, lost);
    DrainStates(s.(clock := s.clock + TICK), lost);
  }

  lemma {:induction false} DrainStates(s: State, lost: set<Task>)
    requires Inv(s, lost) && s.phase == Halted
    ensures Drain(s).state.Keys == s.state.Keys
    decreases |s.sleeping|
  {
    if s.sleeping != [] && s.sleeping[0].awake <= s.clock {
      assert Tasks(s.sleeping)[0] == s.sleeping[0].task;
      WakeInv(s, lost);
      DrainStates(Wake(s), lost);
    }
  }

  /** The queues decide: the state field says where the task is. */
  lemma Places(u: State, t: Task, time: int, lost: set<Task>)
    requires Inv(u, lost) && t in u.state && t !in lost
    requires if time <= u.clock then t in u.ready else Sleeper(time, t) in u.sleeping
    ensures AsleepOrReady(u, t, time)
  {
    assert Placed(u, t);
    if time > u.clock {
      var i :| 0 <= i < |u.sleeping| && u.sleeping[i] == Sleeper(time, t);
      assert Tasks(u.sleeping)[i] == t;
    }
  }

  /** A ready task stays in the queue, unless it is the one switched to. */
  lemma ReadyStays(s: State, e: Event, t: Task)
    requires Enabled(s, e) && t in s.ready && !(Step(s, e).phase == Running && Step(s, e).current == t)
    ensures t in Step(s, e).ready
  {
    match e
    case ETick =>
      DrainMoves(s.(clock := s.clock + TICK));
    case EDecide =>
      assert s.ready == [s.ready[0]] + s.ready[1..];
    case _ =>
  }

  /** Only the timer wakes sleepers. */
  lemma SleeperStays(s: State, e: Event, x: Sleeper, lost: set<Task>)
    requires Inv(s, lost) && Enabled(s, e) && e != ETick && x in s.sleeping
    ensures x in Step(s, e).sleeping
  {
    if e.ESleep? {
      InvPhase(s, lost);
      SleepExact(s, e.time, lost);
      hide Step, Inv;
      assert x in multiset(Step(s, e).sleeping);
    }
  }

  lemma NobodyGoes(s: State, e: Event, lost: set<Task>)
    requires Inv(s, lost) && Enabled(s, e)
    ensures forall t :: t in s.state ==> t in Step(s, e).state
  {
    if e.ETick? {
      InvPhase(s, lost);
      TickStates(s, lost);
    }
  }

  lemma StepWaits(s: State, e: Event, t: Task, time: int, lost: set<Task>)
    requires Inv(s, lost) && Enabled(s, e) && t !in lost && AsleepOrReady(s, t, time)
    requires !(Step(s, e).phase == Running && Step(s, e).current == t)
    ensures AsleepOrReady(Step(s, e), t, time)
  {
    InvPhase(s, lost);
    hide Inv, Step;
    if e.ETick? {
      TickWakes(s, t, time, lost);
      TickIs(s);
    } else {
      StepInv(s, e, lost);
      NobodyGoes(s, e, lost);
      SameClock(s, e);
      if time <= s.clock {
        ReadyStays(s, e, t);
      } else {
        SleeperStays(s, e, Sleeper(time, t), lost);
      }
      Places(Step(s, e), t, time, lost);
    }
  }

  lemma TickIs(s: State)
    ensures Step(s, ETick) == InterruptHandler(s) && (Enabled(s, ETick) <==> s.interrupts)
  {
  }

  lemma SameClock(s: State, e: Event)
    requires e != ETick
    ensures Step(s, e).clock == s.clock
  {
  }

  lemma {:induction false} RunsWait(s: State, es: seq<Event>, end: State, t: Task, time: int, lost: set<Task>)
    requires Inv(s, lost) && Runs(s, es, end) && Waits(s, es, t) && t !in lost && AsleepOrReady(s, t, time)
    ensures AsleepOrReady(end, t, time)
    decreases |es|
  {
    hide Inv, AsleepOrReady;
    if es != [] {
      StepInv(s, es[0], lost);
      StepWaits(s, es[0], t, time, lost);
      RunsWait(Step(s, es[0]), es[1..], end, t, time, lost);
    }
  }

  /** At the start of the runs nobody is asleep. */
  lemma BootTimely(boot: State)
    requires Init(boot)
    ensures Timely(BlockTask(boot, READY)) && Inv(BlockTask(boot, READY), {boot.current})
  {
    BootTaskIsLost(boot);
  }

  /**
   In every run: a task that has called nanosleep_until for a time to come is, until it runs again, asleep with
   that wake time as long as the clock is below it, and ready from the first tick on that reaches it.
   */
  lemma SleepsUntil(boot: State, before: seq<Event>, s: State, time: int, es: seq<Event>, end: State)
    requires Init(boot) && Runs(BlockTask(boot, READY), before, s) && s.phase == Running && time > s.clock
    requires Runs(Step(s, ESleep(time)), es, end) && Waits(Step(s, ESleep(time)), es, s.current)
    ensures AsleepOrReady(end, s.current, time) && end.clock == s.clock + 10000 * Ticks(es)
  {
    hide *;
    var lost := {boot.current};
    BootTimely(boot);
    StepsInv(BlockTask(boot, READY), before, s, lost);
    RunsTimely(BlockTask(boot, READY), before, s, lost);
    FallsAsleep(s, time, lost);
    RunsWait(Step(s, ESleep(time)), es, end, s.current, time, lost);
    RunsTimely(Step(s, ESleep(time)), es, end, lost);
  }

  lemma FallsAsleep(s: State, time: int, lost: set<Task>)
    requires Inv(s, lost) && Timely(s) && s.phase == Running && time > s.clock
    ensures var u := Step(s, ESleep(time));
            && Inv(u, lost) && Timely(u) && u.clock == s.clock
            && s.current !in lost && AsleepOrReady(u, s.current, time)
  {
    StepInv(s, ESleep(time), lost);
    StepTimely(s, ESleep(time), lost);
    SleepExact(s, time, lost);
    hide Inv, Step, Timely;
    CurrentIsPlaced(s, lost);
    var u := Step(s, ESleep(time));
    assert Sleeper(time, s.current) in multiset(u.sleeping);
  }

  lemma CurrentIsPlaced(s: State, lost: set<Task>)
    requires Inv(s, lost) && s.phase == Running
    ensures s.current !in lost && s.current in s.state
  {
  }

  // ---- the ready queue, interrupts included ----

  /** By how many places a task of the ready queue moves up: one a switch, less the tasks the timer puts in front. */
  function Gain(s: State, e: Event): int {
    if e == EDecide then 1 else if e == ETick then 0 - Due(s.sleeping, s.clock + 10000) else 0
  }

  function Passed(s: State, es: seq<Event>): int
    decreases |es|
  {
    if es == [] then 0 else Gain(s, es[0]) + Passed(Step(s, es[0]), es[1..])
  }

  lemma StepPlace(s: State, e: Event, k: nat, lost: set<Task>)
    requires Inv(s, lost) && Enabled(s, e) && k < |s.ready|
    requires !(Step(s, e).phase == Running && Step(s, e).current == s.ready[k])
    ensures 0 <= k - Gain(s, e) < |Step(s, e).ready| && Step(s, e).ready[k - Gain(s, e)] == s.ready[k]
  {
    InvPhase(s, lost);
    if e.ETick? {
      TickPlace(s, k, lost);
    } else {
      hide Inv, Inserted;
    }
  }

  lemma TickPlace(s: State, k: nat, lost: set<Task>)
    requires Inv(s, lost) && s.phase == Halted && k < |s.ready|
    ensures var u, j := InterruptHandler(s), k + Due(s.sleeping, s.clock + 10000);
            j < |u.ready| && u.ready[j] == s.ready[k]
  {
    TickWakesDue(s, lost);
    hide Inv, InterruptHandler, Reversed;
    var woken := Tasks(s.sleeping[..Due(s.sleeping, s.clock + TICK)]);
    ReversedLength(woken);
  }

  lemma ReversedLength(s: seq<Task>)
    ensures |Reversed(s)| == |s|
  {
    if s != [] {
      ReversedAt(s, 0);
    }
  }

  /**
   Whatever happens, interrupts and the idle loop included, a ready task is overtaken by nobody but sleepers the
   timer wakes: until it runs its place is known, and it runs with the switch that finds it in front.
   */
  lemma {:induction false} PlaceInQueue(s: State, es: seq<Event>, end: State, k: nat, lost: set<Task>)
    requires Inv(s, lost) && k < |s.ready| && Runs(s, es, end) && Waits(s, es, s.ready[k])
    ensures 0 <= k - Passed(s, es) < |end.ready| && end.ready[k - Passed(s, es)] == s.ready[k]
    ensures end.phase == Deciding ==>
              (Step(end, EDecide).phase == Running && Step(end, EDecide).current == s.ready[k] <==> k == Passed(s, es))
    decreases |es|
  {
    if es == [] {
      assert Distinct(s.ready);
    } else {
      StepInv(s, es[0], lost);
      StepPlace(s, es[0], k, lost);
      PlaceInQueue(Step(s, es[0]), es[1..], end, k - Gain(s, es[0]), lost);
    }
  }

  // ---- the idle loop ----

  function Repeated(e: Event, n: nat): seq<Event> {
    seq(n, _ => e)
  }

  /** Ticks that reach no wake time only move the clock. */
  lemma {:induction false} QuietTicks(s: State, n: nat, es: seq<Event>, end: State)
    requires s.phase == Halted && s.postponed && s.interrupts
    requires s.sleeping != [] ==> s.sleeping[0].awake > s.clock + 10000 * n
    requires Runs(s.(clock := s.clock + 10000 * n), es, end)
    ensures Runs(s, Repeated(ETick, n) + es, end)
    decreases n
  {
    if n == 0 {
      assert Repeated(ETick, 0) + es == es;
      assert s.(clock := s.clock) == s;
    } else {
      var u := s.(clock := s.clock + 10000);
      assert Step(s, ETick) == u;
      QuietTicks(u, n - 1, es, end);
      var run := Repeated(ETick, n) + es;
      assert run[0] == ETick && run[1..] == Repeated(ETick, n - 1) + es;
    }
  }

  lemma RunsMore(s: State, e: Event, es: seq<Event>, end: State)
    requires Enabled(s, e) && Runs(Step(s, e), es, end)
    ensures Runs(s, [e] + es, end)
  {
    assert ([e] + es)[1..] == es;
  }

  /**
   With no ready task the idle loop waits with interrupts enabled, and it goes on as soon as the timer reaches
   the first wake time: the task that runs then is one whose time has come.
   */
  lemma IdleWakes(s: State, lost: set<Task>) returns (n: nat, end: State, x: Sleeper)
    requires Inv(s, lost) && Timely(s) && s.phase == Deciding && s.ready == [] && s.sleeping != []
    ensures Runs(s, [EDecide] + Repeated(ETick, n) + [ETick, ECli, EDecide], end)
    ensures s.clock + 10000 * n < s.sleeping[0].awake <= end.clock == s.clock + 10000 * (n + 1)
    ensures end.phase == Running && x in s.sleeping && end.current == x.task && x.awake <= end.clock
  {
    var first := s.sleeping[0].awake;
    n := (first - s.clock - 1) / 10000;
    var h := Decide(s);
    var q := h.(clock := h.clock + 10000 * n);
    assert first <= q.clock + 10000;
    x := TickGives(q);
    var w := Step(q, ETick);
    end := Decide(Cli(w));
    hide InterruptHandler;
    RunsMore(Cli(w), EDecide, [], end);
    RunsMore(w, ECli, [EDecide], end);
    RunsMore(q, ETick, [ECli, EDecide], end);
    assert [EDecide] + [] == [EDecide] && [ECli] + [EDecide] == [ECli, EDecide];
    assert [ETick] + [ECli, EDecide] == [ETick, ECli, EDecide];
    QuietTicks(h, n, [ETick, ECli, EDecide], end);
    RunsMore(s, EDecide, Repeated(ETick, n) + [ETick, ECli, EDecide], end);
    assert [EDecide] + (Repeated(ETick, n) + [ETick, ECli, EDecide])
           == [EDecide] + Repeated(ETick, n) + [ETick, ECli, EDecide];
  }

  /** A tick that reaches the first wake time puts a task whose time has come in front of the ready queue. */
  lemma TickGives(q: State) returns (x: Sleeper)
    requires q.phase == Halted && q.postponed && q.sleeping != [] && q.sleeping[0].awake <= q.clock + 10000
    ensures var w := InterruptHandler(q);
            && w.phase == Halted && w.postponed && w.clock == q.clock + 10000
            && w.ready != [] && w.ready[0] == x.task && x in q.sleeping && x.awake <= w.clock
  {
    var c := q.(clock := q.clock + TICK);
    var due := Due(c.sleeping, c.clock);
    DrainMoves(c);
    DrainKeepsControl(c);
    TickClock(q);
    var woken := Tasks(q.sleeping[..due]);
    assert due > 0 && woken[due - 1] == q.sleeping[due - 1].task;
    ReversedAt(woken, 0);
    x := q.sleeping[due - 1];
  }
}
