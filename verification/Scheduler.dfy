/**
 kernel/modules/multitasking (sheduler.c, sleep.c, timer.c, tasks.c): the scheduler's code over the linked
 lists, each function proved to take the step of the transition system.
 */
module Scheduler {
  import opened LinkedList
  import opened Scheduling

  ghost predicate Apart(a: seq<Node<Task>>, b: seq<Node<Task>>) {
    forall i, j :: 0 <= i < |a| && 0 <= j < |b| ==> a[i] != b[j]
  }

  /** The state once a task taken from the sleeping ones has been made ready. */
  function Woken(s: State, t: Task): State {
    SetState(s, t, READY).(ready := [t] + s.ready)
  }

  /** What the loop of the tick still has to do, given what get_awaked_task returned last. */
  function LeftToDrain(task: Option<Task>, s: State): State {
    if task == None then s else Drain(Woken(s, task.value))
  }

  /** One call of get_awaked_task leaves as much to drain as there was. */
  lemma StillToDrain(s: State)
    ensures if s.sleeping == [] || s.sleeping[0].awake > s.clock then LeftToDrain(None, s) == Drain(s)
            else LeftToDrain(Some(s.sleeping[0].task), s.(sleeping := s.sleeping[1..])) == Drain(s)
    ensures LeftToDrain(None, s) == s
    ensures forall t :: LeftToDrain(Some(t), s) == Drain(Woken(s, t)) && Woken(s, t).sleeping == s.sleeping
  {
  }

  class Kernel {
    var current: Task
    var state: map<Task, TaskState>
    var clock: int
    var postponed: bool
    var interrupts: bool
    const ready: List<Task>
    const sleeping: List<Sleeper>
    const terminated: List<Task>
    ghost var phase: Phase
    ghost var arrived: map<Task, int>
    ghost var arrivals: int

    constructor (boot: Task)
      ensures Valid() && Init(Abs()) && fresh(Repr())
      ensures Abs().current == boot && Abs().ready == [] && Abs().state == map[boot := WORKING]
    {
      ready := new List<Task>();
      sleeping := new List<Sleeper>();
      terminated := new List<Task>();
      current, state, clock := boot, map[boot := WORKING], 0;
      postponed, interrupts := false, false;
      phase, arrived, arrivals := Running, map[], 0;
    }

    ghost function Repr(): set<object>
      reads this, ready, sleeping, terminated
    {
      {this, ready, sleeping, terminated} + (set n | n in ready.nodes) + (set n | n in sleeping.nodes)
      + (set n | n in terminated.nodes)
    }

    ghost predicate Valid()
      reads Repr()
    {
      && ready.Valid() && sleeping.Valid() && terminated.Valid()
      && ready != terminated && Apart(ready.nodes, terminated.nodes)
    }

    ghost function Abs(): State
      reads Repr()
    {
      State(current, ready.Contents(), sleeping.Contents(), terminated.Contents(), state, clock, postponed,
            interrupts, phase, arrived, arrivals)
    }

    /** push_back(task, &ready_tasks). */
    method Enqueue(task: Task)
      requires Valid()
      modifies Repr()
      ensures Valid() && fresh(Repr() - old(Repr()))
      ensures Abs() == old(Abs()).(ready := old(Abs()).ready + [task])
    {
      hide Ring;
      ready.PushBack(task);
    }

    method Mark(task: Task, st: TaskState)
      requires Valid()
      modifies this
      ensures Valid() && Abs() == old(Abs()).(state := old(state)[task := st]) && Repr() == old(Repr())
    {
      state := state[task := st];
    }

    method Schedule()
      requires Valid()
      modifies this
      ensures Valid() && Abs() == Scheduling.Schedule(old(Abs())) && Repr() == old(Repr())
    {
      if postponed {
        return;
      }
      postponed := true;
      phase := Deciding;
    }

    method Yield()
      requires Valid()
      modifies Repr()
      ensures Valid() && Abs() == Scheduling.Yield(old(Abs())) && fresh(Repr() - old(Repr()))
    {
      hide Kernel.Valid, Scheduling.Schedule;
      Mark(current, READY);
      Enqueue(current);
      Schedule();
    }

    method BlockTask(reason: TaskState)
      requires Valid()
      modifies this
      ensures Valid() && Abs() == Scheduling.BlockTask(old(Abs()), reason) && Repr() == old(Repr())
    {
      hide Kernel.Valid, Scheduling.Schedule;
      Mark(current, reason);
      Schedule();
    }

    method UnblockTask(task: Task)
      requires Valid()
      modifies Repr()
      ensures Valid() && Abs() == Scheduling.UnblockTask(old(Abs()), task) && fresh(Repr() - old(Repr()))
    {
      hide Kernel.Valid, Scheduling.Schedule;
      Mark(task, READY);
      Enqueue(task);
      Schedule();
    }

    method NanosleepUntil(time: int)
      requires Valid()
      modifies Repr()
      ensures Valid() && Abs() == Scheduling.NanosleepUntil(old(Abs()), time) && fresh(Repr() - old(Repr()))
    {
      hide Kernel.Valid, Scheduling.Schedule, Inserted;
      if time <= clock {
        return;
      }
      var sleepTask := Sleeper(time, current);
      QueueSleeper(sleepTask);
      BlockTask(SLEEP);
    }

    method QueueSleeper(sleepTask: Sleeper)
      requires Valid()
      modifies Repr()
      ensures Valid() && fresh(Repr() - old(Repr()))
      ensures Abs() == old(Abs()).(sleeping := Inserted(old(Abs()).sleeping, sleepTask, AddComparator),
                                   arrived := old(arrived)[old(current) := old(arrivals)],
                                   arrivals := old(arrivals) + 1)
    {
      hide Ring, Inserted, Place;
      sleeping.InsertWithCompare(sleepTask, AddComparator);
      arrived, arrivals := arrived[current := arrivals], arrivals + 1;
    }

    /** get_awaked_task. */
    method GetAwakedTask() returns (task: Option<Task>)
      requires Valid()
      modifies Repr()
      ensures Valid() && fresh(Repr() - old(Repr()))
      ensures var s := old(Abs());
              if s.sleeping == [] || s.sleeping[0].awake > s.clock then task == None && Abs() == s
              else task == Some(s.sleeping[0].task) && Abs() == s.(sleeping := s.sleeping[1..])
    {
      hide Ring;
      if sleeping.head == null {
        return None;
      }
      var nextTask := sleeping.head.obj;
      if nextTask.awake <= clock {
        var sleeper := sleeping.PopFront();
        return Some(sleeper.value.task);
      }
      return None;
    }

    method AdvanceClock()
      requires Valid()
      modifies this
      ensures Valid() && Repr() == old(Repr()) && Abs() == old(Abs()).(clock := old(clock) + TICK)
    {
      clock := clock + TICK;
    }

    /** timer.c:32-33: the awaked task goes to the front of the ready tasks. */
    method MakeReady(task: Task)
      requires Valid()
      modifies Repr()
      ensures Valid() && fresh(Repr() - old(Repr()))
      ensures Abs() == Woken(old(Abs()), task)
    {
      hide Ring;
      state := state[task := READY];
      ready.PushFront(task);
    }

    /** The body of the tick's loop. */
    method WakeNext(task: Task) returns (next: Option<Task>)
      requires Valid()
      modifies Repr()
      ensures Valid() && fresh(Repr() - old(Repr()))
      ensures var s := Woken(old(Abs()), task);
              if s.sleeping == [] || s.sleeping[0].awake > s.clock then next == None && Abs() == s
              else next == Some(s.sleeping[0].task) && Abs() == s.(sleeping := s.sleeping[1..])
    {
      hide Kernel.Valid;
      MakeReady(task);
      next := GetAwakedTask();
    }

    /** timer.c:29-35. */
    method DrainSleepers()
      requires Valid()
      modifies Repr()
      ensures Valid() && Abs() == Drain(old(Abs())) && fresh(Repr() - old(Repr()))
    {
      hide Kernel.Valid, Kernel.Abs, Drain, LeftToDrain, Woken;
      StillToDrain(Abs());
      var awakedTask := GetAwakedTask();
      while awakedTask.Some?
        invariant Valid() && fresh(Repr() - old(Repr()))
        invariant LeftToDrain(awakedTask, Abs()) == Drain(old(Abs()))
        decreases awakedTask.Some?, |Abs().sleeping|
      {
        StillToDrain(Abs());
        StillToDrain(Woken(Abs(), awakedTask.value));
        awakedTask := WakeNext(awakedTask.value);
      }
      StillToDrain(Abs());
    }

    /** The timer's interrupt_handler. */
    method InterruptHandler()
      requires Valid()
      modifies Repr()
      ensures Valid() && Abs() == Scheduling.InterruptHandler(old(Abs())) && fresh(Repr() - old(Repr()))
    {
      hide Kernel.Valid, Drain, Scheduling.Schedule;
      AdvanceClock();
      DrainSleepers();
      Schedule();
    }

    /** The test of schedule's idle loop: sti and hlt, or the switch to the next task. */
    method Decide()
      requires Valid()
      modifies Repr()
      ensures Valid() && Abs() == Scheduling.Decide(old(Abs())) && fresh(Repr() - old(Repr()))
    {
      hide Ring;
      if ready.head == null {
        interrupts := true;
        phase := Halted;
        return;
      }
      postponed := false;
      var nextTask := ready.PopFront();
      state := state[nextTask.value := WORKING];
      current := nextTask.value;
      phase := Running;
    }

    /** The cli after the hlt. */
    method Cli()
      requires Valid()
      modifies this
      ensures Valid() && Abs() == Scheduling.Cli(old(Abs())) && Repr() == old(Repr())
    {
      interrupts := false;
      phase := Deciding;
    }

    /** create_task's effect on the queues; newTask is the address of the task_t that kmalloc returned. */
    method CreateTask(newTask: Task)
      requires Valid()
      modifies Repr()
      ensures Valid() && Abs() == Scheduling.CreateTask(old(Abs()), newTask) && fresh(Repr() - old(Repr()))
    {
      state := state[newTask := READY];
      Enqueue(newTask);
    }

    method TerminateTask(task: Task)
      requires Valid()
      modifies Repr()
      ensures Valid() && Abs() == Scheduling.TerminateTask(old(Abs()), task) && fresh(Repr() - old(Repr()))
    {
      hide Ring;
      state := state[task := TERMINATED];
      terminated.PushBack(task);
      Schedule();
    }
  }

  /** init_multitasking; boot and test are the addresses kmalloc gave for the two tasks. */
  method InitMultitasking(boot: Task, test: Task) returns (k: Kernel, ghost s: State)
    requires boot != test
    ensures k.Valid() && fresh(k.Repr())
    ensures Init(s) && s.current == boot && s.ready == [test] && k.Abs() == Scheduling.BlockTask(s, READY)
  {
    hide Kernel.Valid, Kernel.Abs, Init, Scheduling.BlockTask;
    k := new Kernel(boot);
    s := k.Abs();
    k.CreateTask(test);
    CreateInit(s, test);
    s := k.Abs();
    k.BlockTask(READY);
  }
}
