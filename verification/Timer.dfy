/** Sleeping tasks and the timer interrupt, with one step per lock section.

    The interrupt advances the tick count, then reads the wakeup tick, then (if that is
    due) takes the lock and pops one group of sleepers.  A sleeper first compares its
    deadline with the tick count and only later takes the lock to register, so a tick can
    fall in between. */
module Timer {

  const MAX: nat := 0xFFFF_FFFF_FFFF_FFFF

  datatype Group = Group(deadline: nat, wakers: seq<nat>)

  datatype SleepPc = Check | Register | Waiting | Done
  datatype Sleeper = Sleeper(deadline: nat, pc: SleepPc)

  datatype TimerPc = Off | Ticked | Due(wakeup: nat)

  datatype Sys = Sys(ticks: nat, wakeup: nat, heap: seq<Group>, sleepers: map<nat, Sleeper>, timer: TimerPc)

  datatype Action =
    | Sleep(id: nat, duration: nat)
    | Poll(id: nat)
    | Enlist(id: nat)
    | Spurious(id: nat)
    | Tick
    | Load
    | Fire(at: nat)

  predicate IsMin(heap: seq<Group>, at: nat) {
    at < |heap| && forall j | 0 <= j < |heap| :: heap[at].deadline <= heap[j].deadline
  }

  predicate Enabled(s: Sys, a: Action) {
    match a
    case Sleep(id, d) => id !in s.sleepers && s.ticks + d <= MAX
    case Poll(id) => id in s.sleepers && s.sleepers[id].pc == Check
    case Enlist(id) => id in s.sleepers && s.sleepers[id].pc == Register
    case Spurious(id) => id in s.sleepers && s.sleepers[id].pc == Waiting
    case Tick => s.timer == Off && s.ticks < MAX
    case Load => s.timer == Ticked
    case Fire(at) => s.timer.Due? && (s.heap == [] || IsMin(s.heap, at))
  }

  /** The group with this deadline, or the length of the heap. */
  function Find(heap: seq<Group>, deadline: nat): (k: nat)
    ensures k <= |heap|
    ensures k < |heap| ==> heap[k].deadline == deadline
    ensures forall j | 0 <= j < k :: heap[j].deadline != deadline
  {
    if heap == [] || heap[0].deadline == deadline then 0 else 1 + Find(heap[1..], deadline)
  }

  /** The lock section of sleep. */
  function Insert(heap: seq<Group>, deadline: nat, id: nat): seq<Group> {
    var k := Find(heap, deadline);
    if k < |heap| then heap[k := Group(deadline, heap[k].wakers + [id])]
    else heap + [Group(deadline, [id])]
  }

  /** The next wakeup tick the interrupt stores: the least deadline left, or never. */
  function Next(heap: seq<Group>): nat {
    if heap == [] then MAX
    else
      var rest := Next(heap[1..]);
      if heap[0].deadline < rest then heap[0].deadline else rest
  }

  function Without(heap: seq<Group>, at: nat): seq<Group>
    requires at < |heap|
  {
    heap[..at] + heap[at + 1..]
  }

  function Awaken(sleepers: map<nat, Sleeper>, wakers: seq<nat>): map<nat, Sleeper> {
    map i | i in sleepers :: if i in wakers && sleepers[i].pc == Waiting then sleepers[i].(pc := Check) else sleepers[i]
  }

  function SetPc(s: Sys, id: nat, pc: SleepPc): Sys
    requires id in s.sleepers
  {
    s.(sleepers := s.sleepers[id := s.sleepers[id].(pc := pc)])
  }

  function Step(s: Sys, a: Action): Sys
    requires Enabled(s, a)
  {
    match a
    case Sleep(id, d) => s.(sleepers := s.sleepers[id := Sleeper(s.ticks + d, Check)])
    case Poll(id) => SetPc(s, id, if s.ticks >= s.sleepers[id].deadline then Done else Register)
    case Enlist(id) =>
      var d := s.sleepers[id].deadline;
      SetPc(s, id, Waiting).(heap := Insert(s.heap, d, id), wakeup := if d < s.wakeup then d else s.wakeup)
    case Spurious(id) => SetPc(s, id, Check)
    case Tick => s.(ticks := s.ticks + 1, timer := Ticked)
    case Load => s.(timer := if s.wakeup <= s.ticks then Due(s.wakeup) else Off)
    case Fire(at) =>
      if s.heap == [] then s.(timer := Off)
      else
        var left := Without(s.heap, at);
        s.(heap := left, sleepers := Awaken(s.sleepers, s.heap[at].wakers), timer := Off,
           wakeup := if s.wakeup == s.timer.wakeup then Next(left) else s.wakeup)
  }

  ghost predicate Init(s: Sys) {
    s.ticks == 0 && s.wakeup == MAX && s.heap == [] && s.sleepers == map[] && s.timer == Off
  }

  // ----- what holds in every run

  ghost predicate Distinct(heap: seq<Group>) {
    forall i, j | 0 <= i < j < |heap| :: heap[i].deadline != heap[j].deadline
  }

  ghost predicate Enlisted(heap: seq<Group>, deadline: nat, id: nat) {
    exists k :: 0 <= k < |heap| && heap[k].deadline == deadline && id in heap[k].wakers
  }

  ghost predicate SleeperOk(s: Sys, id: nat)
    requires id in s.sleepers
  {
    var Sleeper(d, pc) := s.sleepers[id];
    && d <= MAX
    && (pc == Done ==> d <= s.ticks)
    && (pc == Waiting ==> Enlisted(s.heap, d, id))
  }

  /** The wakeup tick is never after a registered deadline; there is one group per deadline;
      a sleeper that has returned did not return early; one that waits is registered. */
  ghost predicate Inv(s: Sys) {
    && s.wakeup <= MAX && s.ticks <= 0xFFFF_FFFF_FFFF_FFFF
    && (forall k | 0 <= k < |s.heap| :: s.wakeup <= s.heap[k].deadline <= MAX)
    && Distinct(s.heap)
    && (s.timer.Due? ==> s.timer.wakeup <= s.ticks)
    && forall id {:trigger SleeperOk(s, id)} | id in s.sleepers :: SleeperOk(s, id)
  }

  lemma {:induction false} NextIsLeast(heap: seq<Group>)
    ensures Next(heap) <= MAX
    ensures forall k | 0 <= k < |heap| :: Next(heap) <= heap[k].deadline
    ensures Next(heap) == MAX || exists k :: 0 <= k < |heap| && heap[k].deadline == Next(heap)
  {
    if heap != [] {
      NextIsLeast(heap[1..]);
      forall k | 0 <= k < |heap| ensures Next(heap) <= heap[k].deadline {
        if k > 0 { assert heap[k] == heap[1..][k - 1]; }
      }
      if Next(heap) != MAX && Next(heap) != heap[0].deadline {
        var k :| 0 <= k < |heap[1..]| && heap[1..][k].deadline == Next(heap[1..]);
        assert heap[k + 1].deadline == Next(heap);
      }
    }
  }

  lemma InsertKeeps(heap: seq<Group>, deadline: nat, id: nat)
    requires Distinct(heap)
    ensures Distinct(Insert(heap, deadline, id))
    ensures Enlisted(Insert(heap, deadline, id), deadline, id)
    ensures forall k | 0 <= k < |heap| && heap[k].deadline == deadline :: Insert(heap, deadline, id)[k] == Group(deadline, heap[k].wakers + [id])
    ensures forall k | 0 <= k < |Insert(heap, deadline, id)| ::
              Insert(heap, deadline, id)[k].deadline == deadline
              || exists j :: 0 <= j < |heap| && heap[j].deadline == Insert(heap, deadline, id)[k].deadline
    ensures forall d, i :: Enlisted(Insert(heap, deadline, id), d, i) <==> Enlisted(heap, d, i) || (d == deadline && i == id)
  {
    var k, next := Find(heap, deadline), Insert(heap, deadline, id);
    assert id in next[k].wakers;
    forall d, i ensures Enlisted(next, d, i) <==> Enlisted(heap, d, i) || (d == deadline && i == id) {
      if Enlisted(heap, d, i) {
        var j :| 0 <= j < |heap| && heap[j].deadline == d && i in heap[j].wakers;
        assert next[j].deadline == d && i in next[j].wakers;
      }
      if Enlisted(next, d, i) && !(d == deadline && i == id) {
        var j :| 0 <= j < |next| && next[j].deadline == d && i in next[j].wakers;
        assert heap[j].deadline == d && i in heap[j].wakers;
      }
    }
  }

  lemma EnlistKeeps(s: Sys, id: nat)
    requires Inv(s) && Enabled(s, Enlist(id))
    ensures Inv(Step(s, Enlist(id)))
  {
    assert SleeperOk(s, id);
    InsertKeeps(s.heap, s.sleepers[id].deadline, id);
    var n := Step(s, Enlist(id));
    forall i | i in n.sleepers ensures SleeperOk(n, i) {
      assert SleeperOk(s, i);
    }
  }

  lemma StillEnlisted(heap: seq<Group>, at: nat, deadline: nat, id: nat)
    requires at < |heap| && Enlisted(heap, deadline, id) && id !in heap[at].wakers
    ensures Enlisted(Without(heap, at), deadline, id)
  {
    var k :| 0 <= k < |heap| && heap[k].deadline == deadline && id in heap[k].wakers;
    assert heap[k] == Without(heap, at)[if k < at then k else k - 1];
  }

  lemma WithoutKeeps(heap: seq<Group>, at: nat)
    requires at < |heap| && Distinct(heap)
    ensures Distinct(Without(heap, at))
    ensures forall k | 0 <= k < |Without(heap, at)| ::
              Without(heap, at)[k] == heap[if k < at then k else k + 1] && Without(heap, at)[k].deadline != heap[at].deadline
  {}

  lemma FireKeeps(s: Sys, at: nat)
    requires Inv(s) && Enabled(s, Fire(at))
    ensures Inv(Step(s, Fire(at)))
  {
    var n := Step(s, Fire(at));
    if s.heap != [] {
      WithoutKeeps(s.heap, at);
      NextIsLeast(Without(s.heap, at));
      assert Distinct(n.heap);
    }
    forall i | i in n.sleepers ensures SleeperOk(n, i) {
      assert SleeperOk(s, i);
      if s.heap != [] && n.sleepers[i].pc == Waiting {
        StillEnlisted(s.heap, at, s.sleepers[i].deadline, i);
      }
    }
  }

  lemma StepKeeps(s: Sys, a: Action)
    requires Inv(s) && Enabled(s, a)
    ensures Inv(Step(s, a))
  {
    match a
    case Enlist(id) => EnlistKeeps(s, id);
    case Fire(at) => FireKeeps(s, at);
    case _ =>
      var n := Step(s, a);
      forall i | i in n.sleepers ensures SleeperOk(n, i) {
        if i in s.sleepers { assert SleeperOk(s, i); }
      }
  }

  ghost predicate Reaches(s: Sys, run: seq<Action>, n: Sys)
    decreases run
  {
    if run == [] then n == s
    else Enabled(s, run[0]) && Reaches(Step(s, run[0]), run[1..], n)
  }

  lemma Then(s: Sys, a: Action, run: seq<Action>, n: Sys)
    requires Enabled(s, a) && Reaches(Step(s, a), run, n)
    ensures Reaches(s, [a] + run, n)
  {
    assert ([a] + run)[1..] == run;
  }

  lemma {:induction false} RunKeeps(s: Sys, run: seq<Action>, n: Sys)
    requires Inv(s) && Reaches(s, run, n)
    ensures Inv(n)
    ensures s.ticks <= n.ticks
    ensures forall id <- s.sleepers :: id in n.sleepers && n.sleepers[id].deadline == s.sleepers[id].deadline
    decreases run
  {
    if run != [] {
      StepKeeps(s, run[0]);
      RunKeeps(Step(s, run[0]), run[1..], n);
    }
  }

  /** In every run the wakeup tick is at or below every registered deadline, there is one group
      per deadline, and every sleeper that still waits has its waker in the group of its deadline. */
  lemma Safety(s: Sys, run: seq<Action>, n: Sys, k: nat, j: nat, id: nat)
    requires Init(s) && Reaches(s, run, n)
    ensures k < |n.heap| ==> n.wakeup <= n.heap[k].deadline
    ensures k < |n.heap| && j < |n.heap| && n.heap[k].deadline == n.heap[j].deadline ==> k == j
    ensures id in n.sleepers && n.sleepers[id].pc == Waiting ==> Enlisted(n.heap, n.sleepers[id].deadline, id)
  {
    RunKeeps(s, run, n);
    if id in n.sleepers { assert SleeperOk(n, id); }
  }

  /** A sleep that has returned was called at least its duration ago, however many spurious wakes it got. */
  lemma NeverEarly(s: Sys, id: nat, duration: nat, run: seq<Action>, n: Sys)
    requires Inv(s) && Enabled(s, Sleep(id, duration)) && Reaches(Step(s, Sleep(id, duration)), run, n)
    requires id in n.sleepers && n.sleepers[id].pc == Done
    ensures n.ticks >= s.ticks + duration
  {
    StepKeeps(s, Sleep(id, duration));
    RunKeeps(Step(s, Sleep(id, duration)), run, n);
    assert SleeperOk(n, id);
  }

  // ----- no group outlives its tick, exactly when every registration is in time

  /** The earliest deadline whose interrupt is still to be served. */
  function Floor(s: Sys): nat { if s.timer == Off then s.ticks + 1 else s.ticks }

  /** Every registered deadline is still to be served, and the wakeup tick is exactly the least of them. */
  ghost predicate Punctual(s: Sys) {
    && Inv(s)
    && s.wakeup == Next(s.heap)
    && (s.timer.Due? ==> s.timer.wakeup == s.wakeup)
    && forall k | 0 <= k < |s.heap| :: Floor(s) <= s.heap[k].deadline
  }

  predicate InTime(s: Sys, a: Action)
    requires Enabled(s, a)
  {
    a.Enlist? ==> Floor(s) <= s.sleepers[a.id].deadline
  }

  lemma NextIs(heap: seq<Group>, m: nat)
    requires m <= MAX
    requires forall k | 0 <= k < |heap| :: m <= heap[k].deadline
    requires m == MAX || exists k :: 0 <= k < |heap| && heap[k].deadline == m
    ensures Next(heap) == m
  {
    NextIsLeast(heap);
  }

  lemma InsertNext(heap: seq<Group>, deadline: nat, id: nat)
    requires deadline <= MAX && Distinct(heap)
    ensures Next(Insert(heap, deadline, id)) == if deadline < Next(heap) then deadline else Next(heap)
  {
    NextIsLeast(heap);
    InsertKeeps(heap, deadline, id);
    var next, m := Insert(heap, deadline, id), if deadline < Next(heap) then deadline else Next(heap);
    if m != MAX && m != deadline {
      var k :| 0 <= k < |heap| && heap[k].deadline == Next(heap);
      assert next[k].deadline == m;
    }
    NextIs(next, m);
  }

  lemma EnlistPunctual(s: Sys, id: nat)
    requires Punctual(s) && Enabled(s, Enlist(id))
    ensures Punctual(Step(s, Enlist(id))) <==> InTime(s, Enlist(id))
  {
    EnlistKeeps(s, id);
    assert SleeperOk(s, id);
    var d := s.sleepers[id].deadline;
    InsertNext(s.heap, d, id);
    InsertKeeps(s.heap, d, id);
  }

  lemma FirePunctual(s: Sys, at: nat)
    requires Punctual(s) && Enabled(s, Fire(at))
    ensures Punctual(Step(s, Fire(at)))
  {
    FireKeeps(s, at);
    NextIsLeast(s.heap);
    if s.heap != [] {
      WithoutKeeps(s.heap, at);
      assert s.heap[at].deadline == s.ticks;
    }
  }

  lemma LoadPunctual(s: Sys)
    requires Punctual(s) && Enabled(s, Load)
    ensures Punctual(Step(s, Load))
  {
    StepKeeps(s, Load);
    NextIsLeast(s.heap);
  }

  lemma StepPunctual(s: Sys, a: Action)
    requires Punctual(s) && Enabled(s, a)
    ensures Punctual(Step(s, a)) <==> InTime(s, a)
  {
    match a
    case Enlist(id) => EnlistPunctual(s, id);
    case Fire(at) => FirePunctual(s, at);
    case Load => LoadPunctual(s);
    case _ => StepKeeps(s, a);
  }

  ghost predicate AllInTime(s: Sys, run: seq<Action>)
    decreases run
  {
    run != [] ==> Enabled(s, run[0]) && InTime(s, run[0]) && AllInTime(Step(s, run[0]), run[1..])
  }

  ghost predicate AllPunctual(s: Sys, run: seq<Action>)
    decreases run
  {
    Punctual(s) && (run != [] ==> Enabled(s, run[0]) && AllPunctual(Step(s, run[0]), run[1..]))
  }

  /** A run serves every deadline at its tick exactly when no sleeper registers after its tick was served. */
  lemma {:induction false} PunctualExactlyWhenInTime(s: Sys, run: seq<Action>, n: Sys)
    requires Punctual(s) && Reaches(s, run, n)
    ensures AllPunctual(s, run) <==> AllInTime(s, run)
    decreases run
  {
    if run != [] {
      StepPunctual(s, run[0]);
      if InTime(s, run[0]) {
        PunctualExactlyWhenInTime(Step(s, run[0]), run[1..], n);
      }
    }
  }

  /** No tick while some sleeper is between its deadline check and its registration. */
  ghost predicate Calm(s: Sys, run: seq<Action>)
    decreases run
  {
    run != [] ==>
      && Enabled(s, run[0])
      && (run[0] == Tick ==> forall id <- s.sleepers :: s.sleepers[id].pc != Register)
      && Calm(Step(s, run[0]), run[1..])
  }

  ghost predicate Ahead(s: Sys) {
    forall id <- s.sleepers :: s.sleepers[id].pc == Register ==> s.ticks < s.sleepers[id].deadline
  }

  lemma {:induction false} CalmIsInTime(s: Sys, run: seq<Action>)
    requires Ahead(s) && Calm(s, run)
    ensures AllInTime(s, run)
    decreases run
  {
    if run != [] { CalmIsInTime(Step(s, run[0]), run[1..]); }
  }

  lemma {:induction false} EndIsPunctual(s: Sys, run: seq<Action>, n: Sys)
    requires Reaches(s, run, n) && AllPunctual(s, run)
    ensures Punctual(n)
    decreases run
  {
    if run != [] { EndIsPunctual(Step(s, run[0]), run[1..], n); }
  }

  /** If no tick falls between a check and its registration, then once a tick's interrupt is over no
      group with a deadline at or before that tick is left and nobody waits for such a deadline. */
  lemma OnTime(s: Sys, run: seq<Action>, n: Sys)
    requires Init(s) && Reaches(s, run, n) && Calm(s, run) && n.timer == Off
    ensures forall k | 0 <= k < |n.heap| :: n.ticks < n.heap[k].deadline
    ensures forall id <- n.sleepers | n.sleepers[id].pc == Waiting :: n.ticks < n.sleepers[id].deadline
  {
    CalmIsInTime(s, run);
    PunctualExactlyWhenInTime(s, run, n);
    EndIsPunctual(s, run, n);
    forall id <- n.sleepers | n.sleepers[id].pc == Waiting
      ensures n.ticks < n.sleepers[id].deadline
    {
      assert SleeperOk(n, id);
    }
  }

  lemma {:induction false} StaysAhead(s: Sys, run: seq<Action>, n: Sys)
    requires Ahead(s) && Calm(s, run) && Reaches(s, run, n)
    ensures Ahead(n)
    decreases run
  {
    if run != [] { StaysAhead(Step(s, run[0]), run[1..], n); }
  }

  /** The sleep has returned, or its next poll makes it return. */
  ghost predicate Returns(s: Sys, id: nat) {
    && id in s.sleepers
    && (s.sleepers[id].pc == Done || (Enabled(s, Poll(id)) && Step(s, Poll(id)).sleepers[id].pc == Done))
  }

  lemma DueReturns(s: Sys, run: seq<Action>, n: Sys, id: nat)
    requires Init(s) && Reaches(s, run, n) && Calm(s, run) && n.timer == Off
    requires id in n.sleepers && n.sleepers[id].deadline <= n.ticks
    ensures Returns(n, id)
  {
    OnTime(s, run, n);
    StaysAhead(s, run, n);
  }

  lemma {:induction false} Joined(s: Sys, first: seq<Action>, m: Sys, second: seq<Action>, n: Sys)
    requires Reaches(s, first, m) && Calm(s, first) && Reaches(m, second, n) && Calm(m, second)
    ensures Reaches(s, first + second, n) && Calm(s, first + second)
    decreases first
  {
    if first == [] {
      assert first + second == second;
    } else {
      Joined(Step(s, first[0]), first[1..], m, second, n);
      assert (first + second)[1..] == first[1..] + second;
    }
  }

  /** If no tick falls between a check and its registration, a sleep returns exactly at its time: once the interrupt of
      a tick is over, it has returned or returns at its next poll if its duration is over, and has not returned if not. */
  lemma SleepsExactly(s: Sys, before: seq<Action>, m: Sys, id: nat, duration: nat, run: seq<Action>, n: Sys)
    requires Init(s) && Reaches(s, before, m) && Calm(s, before) && Enabled(m, Sleep(id, duration))
    requires Reaches(Step(m, Sleep(id, duration)), run, n) && Calm(Step(m, Sleep(id, duration)), run) && n.timer == Off
    ensures id in n.sleepers
    ensures m.ticks + duration <= n.ticks ==> Returns(n, id)
    ensures n.ticks < m.ticks + duration ==> n.sleepers[id].pc != Done
  {
    var k := Step(m, Sleep(id, duration));
    RunKeeps(s, before, m);
    StepKeeps(m, Sleep(id, duration));
    RunKeeps(k, run, n);
    if m.ticks + duration <= n.ticks {
      Then(m, Sleep(id, duration), run, n);
      assert ([Sleep(id, duration)] + run)[1..] == run;
      Joined(s, before, m, [Sleep(id, duration)] + run, n);
      DueReturns(s, before + ([Sleep(id, duration)] + run), n, id);
    } else {
      assert SleeperOk(n, id);
    }
  }

  /** A poll before the deadline registers the sleeper and lets it wait, under its own deadline and no other. */
  lemma Parks(s: Sys, id: nat)
    requires Inv(s) && Enabled(s, Poll(id)) && s.ticks < s.sleepers[id].deadline
    ensures var m := Step(s, Poll(id));
            && Enabled(m, Enlist(id))
            && var n := Step(m, Enlist(id));
            && n.sleepers[id].pc == Waiting && n.wakeup <= s.sleepers[id].deadline
            && forall d, i :: Enlisted(n.heap, d, i) <==> Enlisted(s.heap, d, i) || (d == s.sleepers[id].deadline && i == id)
  {
    InsertKeeps(s.heap, s.sleepers[id].deadline, id);
  }

  /** Every waker stands in the group of its own deadline. */
  ghost predicate InOwnGroups(s: Sys) {
    forall d, i {:trigger Enlisted(s.heap, d, i)} | Enlisted(s.heap, d, i) :: i in s.sleepers && s.sleepers[i].deadline == d
  }

  lemma FireOwnGroups(s: Sys, at: nat)
    requires InOwnGroups(s) && Enabled(s, Fire(at)) && s.heap != []
    ensures InOwnGroups(Step(s, Fire(at)))
  {
    var m := Step(s, Fire(at));
    forall d, i | Enlisted(m.heap, d, i) ensures i in m.sleepers && m.sleepers[i].deadline == d {
      var k :| 0 <= k < |m.heap| && m.heap[k].deadline == d && i in m.heap[k].wakers;
      assert m.heap[k] == s.heap[if k < at then k else k + 1];
      assert Enlisted(s.heap, d, i);
    }
  }

  lemma {:induction false} OwnGroups(s: Sys, run: seq<Action>, n: Sys)
    requires Inv(s) && InOwnGroups(s) && Reaches(s, run, n)
    ensures InOwnGroups(n)
    decreases run
  {
    if run != [] {
      var a, m := run[0], Step(s, run[0]);
      if a.Enlist? {
        InsertKeeps(s.heap, s.sleepers[a.id].deadline, a.id);
      } else if a.Fire? && s.heap != [] {
        FireOwnGroups(s, a.at);
      } else {
        assert m.heap == s.heap;
      }
      StepKeeps(s, a);
      OwnGroups(m, run[1..], n);
    }
  }

  /** The interrupt wakes exactly the sleepers that wait for the least registered deadline. */
  lemma FireWakes(s: Sys, run: seq<Action>, n: Sys, at: nat, id: nat)
    requires Init(s) && Reaches(s, run, n) && Enabled(n, Fire(at)) && n.heap != [] && id in n.sleepers
    ensures Step(n, Fire(at)).sleepers[id] ==
            if n.sleepers[id].pc == Waiting && n.sleepers[id].deadline == Next(n.heap) then n.sleepers[id].(pc := Check) else n.sleepers[id]
  {
    RunKeeps(s, run, n);
    OwnGroups(s, run, n);
    NextIsLeast(n.heap);
    assert SleeperOk(n, id);
    var d := n.heap[at].deadline;
    assert id in n.heap[at].wakers ==> Enlisted(n.heap, d, id);
    if Enlisted(n.heap, d, id) {
      var k :| 0 <= k < |n.heap| && n.heap[k].deadline == d && id in n.heap[k].wakers;
      assert k == at;
    }
    assert d <= MAX;
  }

  /** Late or not, if a group is due when a tick comes, that tick pops the least. */
  lemma TickPops(s: Sys) returns (at: nat)
    requires Inv(s) && Enabled(s, Tick) && s.heap != [] && Next(s.heap) <= s.ticks + 1
    ensures at < |s.heap| && s.heap[at].deadline == Next(s.heap)
    ensures var m := Step(s, Tick);
            && Enabled(m, Load)
            && var n := Step(m, Load);
            && Enabled(n, Fire(at))
            && var r := Step(n, Fire(at));
            && r.timer == Off && r.heap == Without(s.heap, at)
            && forall id | id in s.sleepers && id in s.heap[at].wakers :: r.sleepers[id].pc != Waiting
  {
    at := Least(s.heap);
  }

  lemma {:induction false} Least(heap: seq<Group>) returns (at: nat)
    requires heap != [] && forall k | 0 <= k < |heap| :: heap[k].deadline <= MAX
    ensures IsMin(heap, at) && heap[at].deadline == Next(heap)
  {
    at := 0;
    if |heap| > 1 {
      var rest := heap[1..];
      assert forall k | 0 <= k < |rest| :: rest[k] == heap[k + 1];
      var k := Least(rest);
      if rest[k].deadline < heap[0].deadline { at := k + 1; }
    }
    NextIsLeast(heap);
    forall j | 0 <= j < |heap| ensures heap[at].deadline <= heap[j].deadline {
      if j > 0 { assert heap[j] == heap[1..][j - 1]; }
    }
  }

  /** Nothing is ever stuck: the interrupt runs to its end, a sleep can begin whenever its deadline is a tick, and every
      sleep that has not returned has a step to take. */
  lemma CanMove(s: Sys, id: nat, duration: nat) returns (at: nat)
    requires Inv(s)
    ensures match s.timer
            case Off => Enabled(s, Tick) <==> s.ticks < 0xFFFF_FFFF_FFFF_FFFF
            case Ticked => Enabled(s, Load)
            case Due(_) => Enabled(s, Fire(at)) && Step(s, Fire(at)).timer == Off
    ensures id !in s.sleepers && s.ticks + duration <= 0xFFFF_FFFF_FFFF_FFFF ==> Enabled(s, Sleep(id, duration))
    ensures id in s.sleepers ==>
              match s.sleepers[id].pc
              case Check => Enabled(s, Poll(id))
              case Register => Enabled(s, Enlist(id))
              case Waiting => Enabled(s, Spurious(id)) && Step(s, Spurious(id)).sleepers[id].pc == Check
              case Done => true
  {
    at := 0;
    if s.heap != [] { at := Least(s.heap); }
  }

  /** Without that proviso it fails: the tick arrives after the check and before the registration. */
  lemma LateRegistration()
    ensures exists s, run, n, k :: Init(s) && Reaches(s, run, n) && n.timer == Off && 0 <= k < |n.heap|
                                   && n.heap[k].deadline <= n.ticks
  {
    var s := Sys(0, MAX, [], map[], Off);
    var s1 := Step(s, Sleep(7, 1));
    var s2 := Step(s1, Poll(7));
    var s3 := Step(s2, Tick);
    var s4 := Step(s3, Load);
    var n := Step(s4, Enlist(7));
    Then(s4, Enlist(7), [], n);
    Then(s3, Load, [Enlist(7)] + [], n);
    Then(s2, Tick, [Load] + ([Enlist(7)] + []), n);
    Then(s1, Poll(7), [Tick] + ([Load] + ([Enlist(7)] + [])), n);
    Then(s, Sleep(7, 1), [Poll(7)] + ([Tick] + ([Load] + ([Enlist(7)] + []))), n);
    assert n.heap[0].deadline <= n.ticks;
  }
}
