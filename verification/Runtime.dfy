/** The task runtime as a protocol: any number of CPUs run the scheduler loop while wakes
    arrive from anywhere.  Each step is one atomic access; a wake's state update and its
    later queue `put` are separate steps, so are the steps inside the locked section. */
module Runtime {
  import opened Wrappers

  /** The values of the atomic state word. */
  datatype State = Blocked | Ready | Running | ReadyRunning | Dead {
    predicate HasReady() { this == Ready || this == ReadyRunning }
    predicate HasRunning() { this == Running || this == ReadyRunning }
  }

  datatype Task = Task(cpu: nat, state: State)

  /** Where a CPU is in the loop of `Runtime::enter`.  From `Locked` to `Install` it holds
      the lock of its own ready queue. */
  datatype Pc =
    | Top
    | Locked
    | Detached(task: nat)
    | Requeue(task: nat)
    | Pick
    | Switch(task: nat)
    | Install(task: nat)
    | Polling
    | Finishing

  datatype Cpu = Cpu(pc: Pc, current: Option<nat>, queue: seq<nat>)

  predicate HoldsLock(pc: Pc) { !(pc.Top? || pc.Polling? || pc.Finishing?) }

  /** `pending` are the wakes between their state update and their `put`; `panicked` is set
      where the code would hit an assertion or an unreachable arm. */
  datatype Sys = Sys(tasks: map<nat, Task>, cpus: map<nat, Cpu>, pending: multiset<nat>, panicked: bool)

  datatype Action =
    | Spawn(task: nat, cpu: nat)
    | Wake(task: nat)
    | Put(task: nat)
    | Lock(cpu: nat)
    | TakeCurrent(cpu: nat)
    | Unready(cpu: nat)
    | PutBack(cpu: nat)
    | Get(cpu: nat)
    | Start(cpu: nat)
    | SetCurrent(cpu: nat)
    | PollPending(cpu: nat)
    | PollReady(cpu: nat)
    | Finish(cpu: nat)

  /** When a step can be taken.  Wakes never target a dead task. */
  predicate Enabled(s: Sys, a: Action) {
    match a
    case Spawn(t, c) => t !in s.tasks && c in s.cpus
    case Wake(t) => t in s.tasks && s.tasks[t].state != Dead
    case Put(t) => t in s.pending && t in s.tasks && s.tasks[t].cpu in s.cpus && !HoldsLock(s.cpus[s.tasks[t].cpu].pc)
    case Lock(c) => c in s.cpus && s.cpus[c].pc == Top
    case TakeCurrent(c) => c in s.cpus && s.cpus[c].pc == Locked
    case Unready(c) => c in s.cpus && s.cpus[c].pc.Detached? && s.cpus[c].pc.task in s.tasks
    case PutBack(c) => c in s.cpus && s.cpus[c].pc.Requeue?
    case Get(c) => c in s.cpus && s.cpus[c].pc == Pick
    case Start(c) => c in s.cpus && s.cpus[c].pc.Switch? && s.cpus[c].pc.task in s.tasks
    case SetCurrent(c) => c in s.cpus && s.cpus[c].pc.Install?
    case PollPending(c) => c in s.cpus && s.cpus[c].pc == Polling
    case PollReady(c) => c in s.cpus && s.cpus[c].pc == Polling && s.cpus[c].current.Some? && s.cpus[c].current.value in s.tasks
    case Finish(c) => c in s.cpus && s.cpus[c].pc == Finishing
  }

  function SetState(s: Sys, t: nat, state: State): Sys
    requires t in s.tasks
  {
    s.(tasks := s.tasks[t := s.tasks[t].(state := state)])
  }

  function SetCpu(s: Sys, c: nat, cpu: Cpu): Sys {
    s.(cpus := s.cpus[c := cpu])
  }

  function Step(s: Sys, a: Action): Sys
    requires Enabled(s, a)
  {
    match a
    case Spawn(t, c) => s.(tasks := s.tasks[t := Task(c, Blocked)])
    case Wake(t) =>
      (match s.tasks[t].state
       case Blocked => SetState(s, t, Ready).(pending := s.pending + multiset{t})
       case Running => SetState(s, t, ReadyRunning)
       case Ready => s
       case ReadyRunning => s
       case Dead => s.(panicked := true))
    case Put(t) =>
      var c := s.tasks[t].cpu;
      SetCpu(s, c, s.cpus[c].(queue := s.cpus[c].queue + [t])).(pending := s.pending - multiset{t})
    case Lock(c) => SetCpu(s, c, s.cpus[c].(pc := Locked))
    case TakeCurrent(c) =>
      var cpu := s.cpus[c];
      SetCpu(s, c, cpu.(pc := if cpu.current.Some? then Detached(cpu.current.value) else Pick, current := None))
    case Unready(c) =>
      var t := s.cpus[c].pc.task;
      (match s.tasks[t].state
       case ReadyRunning => SetCpu(SetState(s, t, Ready), c, s.cpus[c].(pc := Requeue(t)))
       case Running => SetCpu(SetState(s, t, Blocked), c, s.cpus[c].(pc := Pick))
       case _ => s.(panicked := true))
    case PutBack(c) =>
      var cpu := s.cpus[c];
      SetCpu(s, c, cpu.(pc := Pick, queue := cpu.queue + [cpu.pc.task]))
    case Get(c) =>
      var cpu := s.cpus[c];
      SetCpu(s, c, if cpu.queue == [] then cpu.(pc := Top) else cpu.(pc := Switch(cpu.queue[0]), queue := cpu.queue[1..]))
    case Start(c) =>
      var t := s.cpus[c].pc.task;
      SetCpu(SetState(s, t, Running), c, s.cpus[c].(pc := Install(t))).(panicked := s.panicked || s.tasks[t].state != Ready)
    case SetCurrent(c) =>
      var cpu := s.cpus[c];
      SetCpu(s, c, cpu.(pc := Polling, current := Some(cpu.pc.task)))
    case PollPending(c) => SetCpu(s, c, s.cpus[c].(pc := Top))
    case PollReady(c) =>
      var t := s.cpus[c].current.value;
      SetCpu(SetState(s, t, Dead), c, s.cpus[c].(pc := Finishing)).(panicked := s.panicked || !s.tasks[t].state.HasRunning())
    case Finish(c) => SetCpu(s, c, s.cpus[c].(pc := Top, current := None))
  }

  // ----- the invariant

  /** Entries for `t` on a CPU: in its queue, or in the hands of the scheduler on the way
      into or out of the queue. */
  function Entries(cpu: Cpu, t: nat): nat {
    multiset(cpu.queue)[t] + if cpu.pc == Requeue(t) || cpu.pc == Switch(t) then 1 else 0
  }

  /** Whether the CPU is running `t`. */
  predicate Runs(cpu: Cpu, t: nat) {
    || (cpu.current == Some(t) && !cpu.pc.Finishing?)
    || cpu.pc == Detached(t) || cpu.pc == Install(t)
  }

  /** The READY state is one entry somewhere, on the task's own CPU or in flight; the
      RUNNING bit is being run, on the task's own CPU. */
  ghost predicate TaskOk(s: Sys, t: nat)
    requires t in s.tasks
  {
    var Task(c, state) := s.tasks[t];
    && c in s.cpus
    && Entries(s.cpus[c], t) + s.pending[t] == (if state == Ready then 1 else 0)
    && (state.HasRunning() <==> Runs(s.cpus[c], t))
  }

  predicate Mentions(cpu: Cpu, t: nat) {
    || t in cpu.queue || cpu.current == Some(t)
    || cpu.pc == Detached(t) || cpu.pc == Requeue(t) || cpu.pc == Switch(t) || cpu.pc == Install(t)
  }

  /** A CPU only ever holds tasks that belong to it, and holds a current task exactly where
      the loop has one. */
  ghost predicate CpuOk(s: Sys, c: nat)
    requires c in s.cpus
  {
    var cpu := s.cpus[c];
    && (forall t | Mentions(cpu, t) :: t in s.tasks && s.tasks[t].cpu == c)
    && (cpu.current.Some? ==> cpu.pc.Top? || cpu.pc.Locked? || cpu.pc.Polling? || cpu.pc.Finishing?)
    && (cpu.pc.Polling? || cpu.pc.Finishing? ==> cpu.current.Some?)
  }

  ghost predicate Inv(s: Sys) {
    && !s.panicked
    && (forall t | t in s.pending :: t in s.tasks)
    && (forall c {:trigger CpuOk(s, c)} | c in s.cpus :: CpuOk(s, c))
    && (forall t {:trigger TaskOk(s, t)} | t in s.tasks :: TaskOk(s, t))
  }

  ghost predicate Init(s: Sys) {
    && s.tasks == map[] && s.pending == multiset{} && !s.panicked
    && forall c <- s.cpus :: s.cpus[c] == Cpu(Top, None, [])
  }

  /** What a step on task `t0` and CPU `c0` leaves alone. */
  ghost predicate Elsewhere(s: Sys, n: Sys, c0: nat, t0: nat) {
    && c0 in s.cpus && n.cpus.Keys == s.cpus.Keys && (forall c <- s.cpus | c != c0 :: n.cpus[c] == s.cpus[c])
    && n.tasks.Keys == s.tasks.Keys + {t0} && (forall t <- s.tasks | t != t0 :: n.tasks[t] == s.tasks[t])
    && (t0 in s.tasks ==> n.tasks[t0].cpu == s.tasks[t0].cpu)
    && forall t | t != t0 :: SameFor(s, n, c0, t)
  }

  ghost predicate SameFor(s: Sys, n: Sys, c0: nat, t: nat)
    requires c0 in s.cpus && c0 in n.cpus
  {
    && Entries(n.cpus[c0], t) == Entries(s.cpus[c0], t)
    && Runs(n.cpus[c0], t) == Runs(s.cpus[c0], t)
    && n.pending[t] == s.pending[t]
  }

  /** The invariant is local: it is enough to look at the task and the CPU that change. */
  lemma LocalSteps(s: Sys, n: Sys, c0: nat, t0: nat)
    requires Inv(s) && !n.panicked && Elsewhere(s, n, c0, t0)
    requires CpuOk(n, c0) && TaskOk(n, t0)
    ensures Inv(n)
  {
    forall c | c in n.cpus ensures CpuOk(n, c) {
      if c != c0 { assert CpuOk(s, c); }
    }
    forall t | t in n.tasks ensures TaskOk(n, t) {
      if t != t0 { assert TaskOk(s, t) && SameFor(s, n, c0, t); }
    }
    forall t | t in n.pending ensures t in n.tasks {
      if t != t0 { assert SameFor(s, n, c0, t); }
    }
  }

  lemma QueuePop(q: seq<nat>, u: nat)
    requires q != []
    ensures multiset(q)[u] == multiset(q[1..])[u] + if u == q[0] then 1 else 0
    ensures u in q <==> u in q[1..] || u == q[0]
  {
    assert q == [q[0]] + q[1..];
  }

  lemma SpawnKeeps(s: Sys, t: nat, c: nat)
    requires Inv(s) && Enabled(s, Spawn(t, c))
    ensures Inv(Step(s, Spawn(t, c)))
  {
    assert CpuOk(s, c) && !Mentions(s.cpus[c], t);
    LocalSteps(s, Step(s, Spawn(t, c)), c, t);
  }

  lemma WakeKeeps(s: Sys, t: nat)
    requires Inv(s) && Enabled(s, Wake(t))
    ensures Inv(Step(s, Wake(t)))
  {
    var c := s.tasks[t].cpu;
    assert TaskOk(s, t) && CpuOk(s, c);
    if s.tasks[t].state == Blocked {
      LocalSteps(s, SetState(s, t, Ready).(pending := s.pending + multiset{t}), c, t);
    } else if s.tasks[t].state == Running {
      LocalSteps(s, SetState(s, t, ReadyRunning), c, t);
    }
  }

  lemma PutKeeps(s: Sys, t: nat)
    requires Inv(s) && Enabled(s, Put(t))
    ensures Inv(Step(s, Put(t)))
  {
    var c := s.tasks[t].cpu;
    assert TaskOk(s, t) && CpuOk(s, c);
    var cpu := s.cpus[c];
    LocalSteps(s, SetCpu(s, c, cpu.(queue := cpu.queue + [t])).(pending := s.pending - multiset{t}), c, t);
  }

  /** A step that moves a CPU along without touching any task's entries or run. */
  lemma MoveKeeps(s: Sys, c: nat, cpu: Cpu)
    requires Inv(s) && c in s.cpus
    requires forall t :: Entries(cpu, t) == Entries(s.cpus[c], t) && Runs(cpu, t) == Runs(s.cpus[c], t)
    requires CpuOk(SetCpu(s, c, cpu), c)
    ensures Inv(SetCpu(s, c, cpu))
  {
    var n := SetCpu(s, c, cpu);
    forall d | d in n.cpus ensures CpuOk(n, d) {
      if d != c { assert CpuOk(s, d); }
    }
    forall t | t in n.tasks ensures TaskOk(n, t) {
      assert TaskOk(s, t);
    }
  }

  lemma LockKeeps(s: Sys, c: nat)
    requires Inv(s) && Enabled(s, Lock(c))
    ensures Inv(Step(s, Lock(c)))
  {
    assert CpuOk(s, c);
    MoveKeeps(s, c, s.cpus[c].(pc := Locked));
  }

  lemma TakeCurrentKeeps(s: Sys, c: nat)
    requires Inv(s) && Enabled(s, TakeCurrent(c))
    ensures Inv(Step(s, TakeCurrent(c)))
  {
    assert CpuOk(s, c);
    MoveKeeps(s, c, Step(s, TakeCurrent(c)).cpus[c]);
  }

  lemma PutBackKeeps(s: Sys, c: nat)
    requires Inv(s) && Enabled(s, PutBack(c))
    ensures Inv(Step(s, PutBack(c)))
  {
    assert CpuOk(s, c);
    var cpu := s.cpus[c];
    MoveKeeps(s, c, cpu.(pc := Pick, queue := cpu.queue + [cpu.pc.task]));
  }

  lemma GetKeeps(s: Sys, c: nat)
    requires Inv(s) && Enabled(s, Get(c))
    ensures Inv(Step(s, Get(c)))
  {
    assert CpuOk(s, c);
    var cpu := s.cpus[c];
    if cpu.queue == [] {
      MoveKeeps(s, c, cpu.(pc := Top));
    } else {
      var next := cpu.(pc := Switch(cpu.queue[0]), queue := cpu.queue[1..]);
      forall u ensures Entries(next, u) == Entries(cpu, u) && (u in next.queue ==> u in cpu.queue) { QueuePop(cpu.queue, u); }
      MoveKeeps(s, c, next);
    }
  }

  lemma SetCurrentKeeps(s: Sys, c: nat)
    requires Inv(s) && Enabled(s, SetCurrent(c))
    ensures Inv(Step(s, SetCurrent(c)))
  {
    assert CpuOk(s, c);
    MoveKeeps(s, c, Step(s, SetCurrent(c)).cpus[c]);
  }

  lemma PollPendingKeeps(s: Sys, c: nat)
    requires Inv(s) && Enabled(s, PollPending(c))
    ensures Inv(Step(s, PollPending(c)))
  {
    assert CpuOk(s, c);
    MoveKeeps(s, c, s.cpus[c].(pc := Top));
  }

  lemma FinishKeeps(s: Sys, c: nat)
    requires Inv(s) && Enabled(s, Finish(c))
    ensures Inv(Step(s, Finish(c)))
  {
    assert CpuOk(s, c);
    MoveKeeps(s, c, s.cpus[c].(pc := Top, current := None));
  }

  /** A step that moves CPU `c` along and changes the state word of its task `t`. */
  lemma TaskStep(s: Sys, c: nat, t: nat, cpu: Cpu, state: State)
    requires Inv(s) && c in s.cpus && t in s.tasks && s.tasks[t].cpu == c
    requires forall u | u != t :: Entries(cpu, u) == Entries(s.cpus[c], u) && Runs(cpu, u) == Runs(s.cpus[c], u)
    requires Entries(cpu, t) + s.pending[t] == if state == Ready then 1 else 0
    requires state.HasRunning() <==> Runs(cpu, t)
    requires CpuOk(SetCpu(s, c, cpu), c)
    ensures Inv(SetCpu(SetState(s, t, state), c, cpu))
  {
    LocalSteps(s, SetCpu(SetState(s, t, state), c, cpu), c, t);
  }

  /** The current task was being run, so the unreachable arm is not taken. */
  lemma UnreadyKeeps(s: Sys, c: nat)
    requires Inv(s) && Enabled(s, Unready(c))
    ensures Inv(Step(s, Unready(c)))
  {
    var t := s.cpus[c].pc.task;
    assert CpuOk(s, c) && Mentions(s.cpus[c], t) && TaskOk(s, t);
    if s.tasks[t].state == ReadyRunning {
      TaskStep(s, c, t, s.cpus[c].(pc := Requeue(t)), Ready);
    } else {
      TaskStep(s, c, t, s.cpus[c].(pc := Pick), Blocked);
    }
  }

  /** The task taken from the queue is READY, so the assertion holds. */
  lemma StartKeeps(s: Sys, c: nat)
    requires Inv(s) && Enabled(s, Start(c))
    ensures Inv(Step(s, Start(c)))
  {
    var t := s.cpus[c].pc.task;
    assert CpuOk(s, c) && Mentions(s.cpus[c], t) && TaskOk(s, t);
    TaskStep(s, c, t, s.cpus[c].(pc := Install(t)), Running);
  }

  /** The finished task still has its RUNNING bit, so the assertion holds. */
  lemma PollReadyKeeps(s: Sys, c: nat)
    requires Inv(s) && Enabled(s, PollReady(c))
    ensures Inv(Step(s, PollReady(c)))
  {
    var t := s.cpus[c].current.value;
    assert CpuOk(s, c) && Mentions(s.cpus[c], t) && TaskOk(s, t);
    TaskStep(s, c, t, s.cpus[c].(pc := Finishing), Dead);
  }

  /** Every step keeps the invariant. */
  lemma StepKeeps(s: Sys, a: Action)
    requires Inv(s) && Enabled(s, a)
    ensures Inv(Step(s, a))
  {
    match a
    case Spawn(t, c) => SpawnKeeps(s, t, c);
    case Wake(t) => WakeKeeps(s, t);
    case Put(t) => PutKeeps(s, t);
    case Lock(c) => LockKeeps(s, c);
    case TakeCurrent(c) => TakeCurrentKeeps(s, c);
    case Unready(c) => UnreadyKeeps(s, c);
    case PutBack(c) => PutBackKeeps(s, c);
    case Get(c) => GetKeeps(s, c);
    case Start(c) => StartKeeps(s, c);
    case SetCurrent(c) => SetCurrentKeeps(s, c);
    case PollPending(c) => PollPendingKeeps(s, c);
    case PollReady(c) => PollReadyKeeps(s, c);
    case Finish(c) => FinishKeeps(s, c);
  }

  /** The assertions of the code: a step panics exactly if it starts a task that is not READY, puts away one that is
      not running, or ends one that is not running. */
  lemma AssertionsOf(s: Sys, a: Action)
    requires Enabled(s, a) && !s.panicked
    ensures Step(s, a).panicked <==>
              match a
              case Unready(c) => !s.tasks[s.cpus[c].pc.task].state.HasRunning()
              case Start(c) => s.tasks[s.cpus[c].pc.task].state != Ready
              case PollReady(c) => !s.tasks[s.cpus[c].current.value].state.HasRunning()
              case _ => false
  {}

  // ----- runs

  /** `n` is reached from `s` by taking the steps `run`, each of them enabled. */
  ghost predicate Reaches(s: Sys, run: seq<Action>, n: Sys)
    decreases run
  {
    if run == [] then n == s
    else Enabled(s, run[0]) && Reaches(Step(s, run[0]), run[1..], n)
  }

  lemma {:induction false} RunKeeps(s: Sys, run: seq<Action>, n: Sys)
    requires Inv(s) && Reaches(s, run, n)
    ensures Inv(n)
    decreases run
  {
    if run != [] {
      StepKeeps(s, run[0]);
      RunKeeps(Step(s, run[0]), run[1..], n);
    }
  }

  /** Safety: in every interleaving nothing panics; a task is in the queue of its own CPU, in the hands of
      its scheduler or in flight exactly once when READY and not at all otherwise; it is in no other queue;
      and it is current on its own CPU only, and there only while its RUNNING bit is set or
      it has just died. */
  lemma Safety(s: Sys, run: seq<Action>, n: Sys, t: nat, c: nat)
    requires Init(s) && Reaches(s, run, n) && t in n.tasks && c in n.cpus
    ensures !n.panicked
    ensures n.tasks[t].cpu in n.cpus
    ensures c != n.tasks[t].cpu ==> t !in n.cpus[c].queue && n.cpus[c].current != Some(t)
    ensures Entries(n.cpus[n.tasks[t].cpu], t) + n.pending[t] == if n.tasks[t].state == Ready then 1 else 0
    ensures !HoldsLock(n.cpus[n.tasks[t].cpu].pc) ==>
              multiset(n.cpus[n.tasks[t].cpu].queue)[t] + n.pending[t] == if n.tasks[t].state == Ready then 1 else 0
    ensures n.cpus[c].current == Some(t) && c == n.tasks[t].cpu ==>
              n.tasks[t].state.HasRunning() || n.cpus[c].pc.Finishing?
  {
    forall d | d in s.cpus ensures CpuOk(s, d) {}
    RunKeeps(s, run, n);
    assert TaskOk(n, t) && CpuOk(n, c) && CpuOk(n, n.tasks[t].cpu);
  }

  /** No task is ever polled on two CPUs at once. */
  lemma PolledOnce(s: Sys, run: seq<Action>, n: Sys, c: nat, d: nat)
    requires Init(s) && Reaches(s, run, n) && c in n.cpus && d in n.cpus
    requires n.cpus[c].pc.Polling? && n.cpus[d].pc.Polling? && n.cpus[c].current == n.cpus[d].current
    ensures c == d
  {
    forall e | e in s.cpus ensures CpuOk(s, e) {}
    RunKeeps(s, run, n);
    assert CpuOk(n, c) && CpuOk(n, d);
    var t := n.cpus[c].current.value;
    assert Mentions(n.cpus[c], t) && Mentions(n.cpus[d], t);
  }

  // ----- no wake-up is lost

  /** The steps at which task `t` begins a new poll or finishes. */
  predicate Consumes(s: Sys, a: Action, t: nat)
    requires Enabled(s, a)
  {
    || (a.Start? && s.cpus[a.cpu].pc == Switch(t))
    || (a.PollReady? && s.cpus[a.cpu].current == Some(t))
  }

  ghost predicate NeverConsumed(s: Sys, run: seq<Action>, t: nat)
    decreases run
  {
    run == [] || (Enabled(s, run[0]) && !Consumes(s, run[0], t) && NeverConsumed(Step(s, run[0]), run[1..], t))
  }

  /** A wake sets the READY bit. */
  lemma WakeSetsReady(s: Sys, t: nat)
    requires Enabled(s, Wake(t))
    ensures t in Step(s, Wake(t)).tasks && Step(s, Wake(t)).tasks[t].state.HasReady()
  {
  }

  /** Only the start of a new poll of the task, or its end, clears the READY bit. */
  lemma ReadyStays(s: Sys, a: Action, t: nat)
    requires Inv(s) && Enabled(s, a) && t in s.tasks && s.tasks[t].state.HasReady() && !Consumes(s, a, t)
    ensures t in Step(s, a).tasks && Step(s, a).tasks[t].state.HasReady()
  {
    if a.Wake? || a.Unready? || a.Start? || a.PollReady? {
      assert TaskOk(s, t) && CpuOk(s, s.tasks[t].cpu);
    } else {
      StateStays(s, a, t);
    }
  }

  lemma StateStays(s: Sys, a: Action, t: nat)
    requires Enabled(s, a) && t in s.tasks && !a.Wake? && !a.Unready? && !a.Start? && !a.PollReady?
    ensures t in Step(s, a).tasks && Step(s, a).tasks[t] == s.tasks[t]
  {}

  /** No wake is lost: after a wake the READY bit stays set over any run in which the task
      neither begins a new poll nor finishes, and then the task is still queued, in flight,
      or running with the request to be queued again. */
  lemma {:induction false} NoLostWake(s: Sys, run: seq<Action>, n: Sys, t: nat)
    requires Inv(s) && t in s.tasks && s.tasks[t].state.HasReady()
    requires Reaches(s, run, n) && NeverConsumed(s, run, t)
    ensures t in n.tasks && n.tasks[t].state.HasReady()
    ensures Inv(n) && n.tasks[t].cpu in n.cpus
    ensures Entries(n.cpus[n.tasks[t].cpu], t) + n.pending[t] == 1 || Runs(n.cpus[n.tasks[t].cpu], t)
    decreases run
  {
    if run == [] {
      assert TaskOk(s, t);
    } else {
      ReadyStays(s, run[0], t);
      StepKeeps(s, run[0]);
      NoLostWake(Step(s, run[0]), run[1..], n, t);
    }
  }

  // ----- the ready queue is first in, first out

  /** What a step takes out of, and puts into, the queue of CPU `c`, and what poll it starts there. */
  function PickedBy(s: Sys, a: Action, c: nat): seq<nat>
    requires Enabled(s, a)
  {
    if a == Get(c) && s.cpus[c].queue != [] then [s.cpus[c].queue[0]] else []
  }

  function QueuedBy(s: Sys, a: Action, c: nat): seq<nat>
    requires Enabled(s, a)
  {
    if a.Put? && s.tasks[a.task].cpu == c then [a.task]
    else if a == PutBack(c) then [s.cpus[c].pc.task] else []
  }

  function StartedBy(s: Sys, a: Action, c: nat): seq<nat>
    requires Enabled(s, a)
  {
    if a == Start(c) then [s.cpus[c].pc.task] else []
  }

  ghost function Picked(s: Sys, run: seq<Action>, c: nat): seq<nat>
    decreases run
  {
    if run == [] || !Enabled(s, run[0]) then [] else PickedBy(s, run[0], c) + Picked(Step(s, run[0]), run[1..], c)
  }

  ghost function Queued(s: Sys, run: seq<Action>, c: nat): seq<nat>
    decreases run
  {
    if run == [] || !Enabled(s, run[0]) then [] else QueuedBy(s, run[0], c) + Queued(Step(s, run[0]), run[1..], c)
  }

  ghost function Started(s: Sys, run: seq<Action>, c: nat): seq<nat>
    decreases run
  {
    if run == [] || !Enabled(s, run[0]) then [] else StartedBy(s, run[0], c) + Started(Step(s, run[0]), run[1..], c)
  }

  /** The task that has been picked but not yet started. */
  function InHand(s: Sys, c: nat): seq<nat>
    requires c in s.cpus
  {
    if s.cpus[c].pc.Switch? then [s.cpus[c].pc.task] else []
  }

  lemma StepQueue(s: Sys, a: Action, c: nat)
    requires Enabled(s, a) && c in s.cpus
    ensures c in Step(s, a).cpus
    ensures s.cpus[c].queue + QueuedBy(s, a, c) == PickedBy(s, a, c) + Step(s, a).cpus[c].queue
  {
    var q := s.cpus[c].queue;
    if a.Get? {
      if a.cpu == c && q != [] { assert q == [q[0]] + q[1..]; }
    } else {
      StepAppends(s, a, c);
    }
  }

  lemma StepAppends(s: Sys, a: Action, c: nat)
    requires Enabled(s, a) && c in s.cpus && !a.Get?
    ensures c in Step(s, a).cpus && Step(s, a).cpus[c].queue == s.cpus[c].queue + QueuedBy(s, a, c)
  {
    if !a.Put? && !a.PutBack? { QueueStays(s, a, c); }
  }

  lemma QueueStays(s: Sys, a: Action, c: nat)
    requires Enabled(s, a) && c in s.cpus && !a.Get? && !a.Put? && !a.PutBack?
    ensures c in Step(s, a).cpus && Step(s, a).cpus[c].queue == s.cpus[c].queue && QueuedBy(s, a, c) == []
  {}

  lemma StepHand(s: Sys, a: Action, c: nat)
    requires Enabled(s, a) && c in s.cpus
    ensures c in Step(s, a).cpus
    ensures InHand(s, c) + PickedBy(s, a, c) == StartedBy(s, a, c) + InHand(Step(s, a), c)
  {
    if a != Get(c) && a != Start(c) {
      assert Step(s, a).cpus[c].pc.Switch? <==> s.cpus[c].pc.Switch?;
      assert InHand(Step(s, a), c) == InHand(s, c);
    }
  }

  lemma Glue(q: seq<nat>, put: seq<nat>, got: seq<nat>, q': seq<nat>, puts: seq<nat>, gots: seq<nat>, end: seq<nat>)
    requires q + put == got + q' && q' + puts == gots + end
    ensures q + (put + puts) == (got + gots) + end
  {
    assert q + (put + puts) == (q + put) + puts;
    assert (got + q') + puts == got + (q' + puts);
    assert got + (gots + end) == (got + gots) + end;
  }

  /** What was queued and what is put in comes out in order: nothing is dropped or overtaken.
      And every task picked is polled, in the order of picking. */
  lemma {:induction false} Fifo(s: Sys, run: seq<Action>, n: Sys, c: nat)
    requires c in s.cpus && Reaches(s, run, n)
    ensures c in n.cpus
    ensures s.cpus[c].queue + Queued(s, run, c) == Picked(s, run, c) + n.cpus[c].queue
    ensures InHand(s, c) + Picked(s, run, c) == Started(s, run, c) + InHand(n, c)
    decreases run
  {
    if run != [] {
      var a, m, rest := run[0], Step(s, run[0]), run[1..];
      StepQueue(s, a, c);
      StepHand(s, a, c);
      Fifo(m, rest, n, c);
      Glue(s.cpus[c].queue, QueuedBy(s, a, c), PickedBy(s, a, c), m.cpus[c].queue,
           Queued(m, rest, c), Picked(m, rest, c), n.cpus[c].queue);
      Glue(InHand(s, c), PickedBy(s, a, c), StartedBy(s, a, c), InHand(m, c),
           Picked(m, rest, c), Started(m, rest, c), InHand(n, c));
    }
  }

  /** The task at position `k` of a queue is the one polled after exactly `k` other tasks,
      not counting one already in hand. */
  lemma PolledInTurn(s: Sys, run: seq<Action>, n: Sys, c: nat, k: nat)
    requires c in s.cpus && Reaches(s, run, n) && k < |s.cpus[c].queue|
    requires |InHand(s, c)| + k < |Started(s, run, c)|
    ensures Started(s, run, c)[|InHand(s, c)| + k] == s.cpus[c].queue[k]
  {
    Fifo(s, run, n, c);
    var through := InHand(s, c) + Picked(s, run, c);
    assert through[|InHand(s, c)| + k] == Started(s, run, c)[|InHand(s, c)| + k];
    var all := s.cpus[c].queue + Queued(s, run, c);
    assert all[k] == s.cpus[c].queue[k] && all[k] == Picked(s, run, c)[k];
  }
}
