/** The scheduler loop goes on: what a CPU's own steps lead to, whatever wakes and other CPUs do in between. */
module Progress {
  import opened Wrappers
  import opened Runtime

  /** A step of the loop of this CPU. */
  predicate Own(a: Action, c: nat) { !a.Spawn? && !a.Wake? && !a.Put? && a.cpu == c }

  function OwnSteps(run: seq<Action>, c: nat): nat {
    if run == [] then 0 else (if Own(run[0], c) then 1 else 0) + OwnSteps(run[1..], c)
  }

  /** How many of its own steps at most bring a CPU with work to the start of a poll. */
  function Rank(pc: Pc): nat {
    match pc
    case Switch(_) => 1
    case Pick => 2
    case Requeue(_) => 3
    case Detached(_) => 4
    case Locked => 5
    case Top => 6
    case Finishing => 7
    case Polling => 8
    case Install(_) => 9
  }

  /** No CPU is ever stuck. */
  lemma CanMove(s: Sys, c: nat) returns (a: Action)
    requires Inv(s) && c in s.cpus
    ensures Own(a, c) && Enabled(s, a)
  {
    assert CpuOk(s, c);
    match s.cpus[c].pc
    case Top => a := Lock(c);
    case Locked => a := TakeCurrent(c);
    case Detached(t) => assert Mentions(s.cpus[c], t); a := Unready(c);
    case Requeue(_) => a := PutBack(c);
    case Pick => a := Get(c);
    case Switch(t) => assert Mentions(s.cpus[c], t); a := Start(c);
    case Install(_) => a := SetCurrent(c);
    case Polling => a := PollPending(c);
    case Finishing => a := Finish(c);
  }

  lemma OwnMoves(s: Sys, a: Action, c: nat)
    requires Inv(s) && Enabled(s, a) && Own(a, c) && c in s.cpus
    ensures c in Step(s, a).cpus
    ensures var pc, next := s.cpus[c].pc, Step(s, a).cpus[c].pc;
            if a.Start? then Rank(next) == 9
            else if a.Get? && s.cpus[c].queue == [] then next == Top
            else Rank(next) < Rank(pc)
  {
    assert CpuOk(s, c);
    if a.Unready? {
      var t := s.cpus[c].pc.task;
      assert Mentions(s.cpus[c], t) && TaskOk(s, t);
    }
  }

  /** Steps of others leave the CPU where it is, and only add to its queue. */
  lemma OthersWait(s: Sys, a: Action, c: nat)
    requires Enabled(s, a) && !Own(a, c) && c in s.cpus
    ensures c in Step(s, a).cpus && Step(s, a).cpus[c] == s.cpus[c].(queue := Step(s, a).cpus[c].queue)
    ensures s.cpus[c].queue <= Step(s, a).cpus[c].queue
  {}

  /** The tasks in line on a CPU, one already picked included. */
  function InLine(s: Sys, c: nat): nat
    requires c in s.cpus
  {
    |InHand(s, c)| + |s.cpus[c].queue|
  }

  lemma LineMoves(s: Sys, a: Action, c: nat)
    requires Enabled(s, a) && c in s.cpus
    ensures c in Step(s, a).cpus && InLine(Step(s, a), c) >= InLine(s, c) - |StartedBy(s, a, c)|
  {
    StepQueue(s, a, c);
    StepHand(s, a, c);
    LineCounts(InHand(s, c), PickedBy(s, a, c), StartedBy(s, a, c), InHand(Step(s, a), c), s.cpus[c].queue, QueuedBy(s, a, c), Step(s, a).cpus[c].queue);
  }

  lemma LineCounts(hand: seq<nat>, picked: seq<nat>, started: seq<nat>, hand': seq<nat>, q: seq<nat>, queued: seq<nat>, q': seq<nat>)
    requires hand + picked == started + hand' && q + queued == picked + q'
    ensures |hand'| + |q'| >= |hand| + |q| - |started|
  {
    assert |hand + picked| == |started + hand'| && |q + queued| == |picked + q'|;
  }

  /** Nobody starves: in every interleaving, a CPU with m tasks in line has started m polls after so many of its own
      steps, counting the ends of the polls in between. */
  lemma {:induction false} Served(s: Sys, run: seq<Action>, n: Sys, c: nat, m: nat)
    requires Inv(s) && c in s.cpus && Reaches(s, run, n) && 0 < m <= InLine(s, c)
    requires OwnSteps(run, c) >= Rank(s.cpus[c].pc) + 9 * (m - 1)
    ensures |Started(s, run, c)| >= m
    decreases run
  {
    var a, t := run[0], Step(s, run[0]);
    StepKeeps(s, a);
    LineMoves(s, a, c);
    if !Own(a, c) {
      OthersWait(s, a, c);
      Served(t, run[1..], n, c, m);
    } else {
      OwnMoves(s, a, c);
      if !a.Start? {
        Served(t, run[1..], n, c, m);
      } else if m > 1 {
        Served(t, run[1..], n, c, m - 1);
      }
    }
  }

  /** So the task at position k of a queue is polled, after exactly k others. */
  lemma ServedInTurn(s: Sys, run: seq<Action>, n: Sys, c: nat, k: nat)
    requires Inv(s) && c in s.cpus && Reaches(s, run, n) && k < |s.cpus[c].queue|
    requires OwnSteps(run, c) >= Rank(s.cpus[c].pc) + 9 * (|InHand(s, c)| + k)
    ensures |InHand(s, c)| + k < |Started(s, run, c)| && Started(s, run, c)[|InHand(s, c)| + k] == s.cpus[c].queue[k]
  {
    Served(s, run, n, c, |InHand(s, c)| + k + 1);
    PolledInTurn(s, run, n, c, k);
  }

  // ----- one round of the loop

  lemma Then(s: Sys, run: seq<Action>, m: Sys, a: Action)
    requires Reaches(s, run, m) && Enabled(m, a)
    ensures Reaches(s, run + [a], Step(m, a))
    decreases run
  {
    if run == [] {
      assert (run + [a])[1..] == [];
    } else {
      assert (run + [a])[1..] == run[1..] + [a];
      Then(Step(s, run[0]), run[1..], m, a);
    }
  }

  /** A run of this CPU alone to a state that keeps the invariant. */
  ghost predicate Alone(s: Sys, run: seq<Action>, n: Sys, c: nat) {
    Inv(n) && c in n.cpus && Reaches(s, run, n) && forall i | 0 <= i < |run| :: Own(run[i], c)
  }

  lemma Onwards(s: Sys, run: seq<Action>, m: Sys, c: nat, a: Action) returns (longer: seq<Action>, n: Sys)
    requires Alone(s, run, m, c) && Own(a, c) && Enabled(m, a)
    ensures longer == run + [a] && n == Step(m, a) && Alone(s, longer, n, c)
  {
    longer, n := run + [a], Step(m, a);
    StepKeeps(m, a);
    Then(s, run, m, a);
  }

  /** What the queue holds once the current task is put away. */
  function Lined(s: Sys, c: nat): seq<nat>
    requires c in s.cpus && (s.cpus[c].current.Some? ==> s.cpus[c].current.value in s.tasks)
  {
    var cpu := s.cpus[c];
    if cpu.current.Some? && s.tasks[cpu.current.value].state == ReadyRunning then cpu.queue + [cpu.current.value] else cpu.queue
  }

  /** The state of the current task once it is put away. */
  function PutAway(state: State): State { if state == ReadyRunning then State.Ready else Blocked }

  ghost predicate PickedUp(s: Sys, n: Sys, c: nat, queue: seq<nat>) {
    && c in s.cpus && c in n.cpus && n.cpus[c] == Cpu(Pick, None, queue)
    && n.tasks == match s.cpus[c].current
                  case None => s.tasks
                  case Some(t) => if t in s.tasks then s.tasks[t := s.tasks[t].(state := PutAway(s.tasks[t].state))] else s.tasks
  }

  /** The first half of a round: the current task, if any, is put away, at the end of the queue exactly if it was
      woken while it ran. */
  lemma ToPick(s: Sys, c: nat) returns (run: seq<Action>, n: Sys)
    requires Inv(s) && c in s.cpus && s.cpus[c].pc == Top
    ensures s.cpus[c].current.Some? ==> s.cpus[c].current.value in s.tasks
    ensures Alone(s, run, n, c) && PickedUp(s, n, c, Lined(s, c))
  {
    assert CpuOk(s, c);
    if s.cpus[c].current.Some? {
      var t := s.cpus[c].current.value;
      assert Mentions(s.cpus[c], t) && TaskOk(s, t);
    }
    run, n := Onwards(s, [], s, c, Lock(c));
    run, n := Onwards(s, run, n, c, TakeCurrent(c));
    if s.cpus[c].current.Some? {
      var requeue := s.tasks[s.cpus[c].current.value].state == ReadyRunning;
      run, n := Onwards(s, run, n, c, Unready(c));
      if requeue { run, n := Onwards(s, run, n, c, PutBack(c)); }
    }
  }

  /** The second half: back to the top if the queue is empty, else the first task of the queue is polled. */
  lemma FromPick(s: Sys, before: seq<Action>, m: Sys, c: nat) returns (run: seq<Action>, n: Sys)
    requires Alone(s, before, m, c) && m.cpus[c].pc == Pick && m.cpus[c].current == None
    ensures Alone(s, run, n, c)
    ensures var q := m.cpus[c].queue;
            if q == [] then n.cpus[c] == Cpu(Top, None, []) && n.tasks == m.tasks
            else
              && n.cpus[c] == Cpu(Polling, Some(q[0]), q[1..])
              && q[0] in m.tasks && n.tasks == m.tasks[q[0] := m.tasks[q[0]].(state := Running)]
  {
    assert CpuOk(m, c);
    var q := m.cpus[c].queue;
    run, n := Onwards(s, before, m, c, Get(c));
    if q != [] {
      assert Mentions(m.cpus[c], q[0]);
      run, n := Onwards(s, run, n, c, Start(c));
      run, n := Onwards(s, run, n, c, SetCurrent(c));
    }
  }

  /** A whole round of the loop, idle, with a blocked or with a woken current task: the CPU's own steps lead back to
      the top exactly if nothing is in line; otherwise the first in line is polled. */
  lemma Round(s: Sys, c: nat) returns (run: seq<Action>, n: Sys)
    requires Inv(s) && c in s.cpus && s.cpus[c].pc == Top
    ensures s.cpus[c].current.Some? ==> s.cpus[c].current.value in s.tasks
    ensures Alone(s, run, n, c)
    ensures var q := Lined(s, c);
            if q == [] then n.cpus[c] == Cpu(Top, None, [])
            else n.cpus[c] == Cpu(Polling, Some(q[0]), q[1..]) && q[0] in n.tasks && n.tasks[q[0]].state == Running
  {
    var before, m := ToPick(s, c);
    run, n := FromPick(s, before, m, c);
  }

  /** The end of a poll: a pending task stays current, a finished one is dead and gone. */
  lemma PollEnds(s: Sys, c: nat, ready: bool) returns (run: seq<Action>, n: Sys)
    requires Inv(s) && c in s.cpus && s.cpus[c].pc == Polling
    ensures s.cpus[c].current.Some? && s.cpus[c].current.value in s.tasks && Alone(s, run, n, c)
    ensures var t := s.cpus[c].current.value;
            && n.cpus[c] == Cpu(Top, if ready then None else Some(t), s.cpus[c].queue)
            && n.tasks == if ready then s.tasks[t := s.tasks[t].(state := Dead)] else s.tasks
  {
    assert CpuOk(s, c);
    assert Mentions(s.cpus[c], s.cpus[c].current.value);
    if ready {
      run, n := Onwards(s, [], s, c, PollReady(c));
      run, n := Onwards(s, run, n, c, Finish(c));
    } else {
      run, n := Onwards(s, [], s, c, PollPending(c));
    }
  }

  /** A new task waits to be woken; waking a waiting task puts it at the end of the queue of its own CPU. */
  lemma WokenIsQueued(s: Sys, t: nat)
    requires Inv(s) && t in s.tasks && s.tasks[t].state == Blocked
    ensures Enabled(s, Wake(t))
    ensures var m, c := Step(s, Wake(t)), s.tasks[t].cpu;
            && c in s.cpus && t in m.pending && m.tasks[t].state == Ready
            && (Enabled(m, Put(t)) <==> !HoldsLock(s.cpus[c].pc))
            && (Enabled(m, Put(t)) ==> Step(m, Put(t)).cpus[c].queue == s.cpus[c].queue + [t])
  {
    assert TaskOk(s, t);
  }

  lemma SpawnedWaits(s: Sys, t: nat, c: nat)
    requires Inv(s) && Enabled(s, Spawn(t, c))
    ensures var n := Step(s, Spawn(t, c)); Inv(n) && t in n.tasks && n.tasks[t] == Task(c, Blocked)
  {
    StepKeeps(s, Spawn(t, c));
  }
}
