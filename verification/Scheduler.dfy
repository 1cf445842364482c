/** The virtual-time scheduler: each tick charges the running task, picks the least and renormalises. */
module Scheduler {
  import opened Words
  import opened Arith

  const SLOTS: nat := 16
  const U64_MAX: nat := WORD - 1

  datatype TaskState = TaskFree | TaskInit | TaskRunning | TaskDead

  /** The registers a task is entered with; `general` stands for all the others. */
  datatype Regs = Regs(rip: nat, rsp: nat, rflags: nat, cs: nat, ss: nat, general: seq<nat>)

  datatype Task = Task(pid: nat, state: TaskState, ctx: Regs, vmem: nat, vtime: nat, priority: nat)

  /** `current` is a slot, or -1 while no task has been chosen. */
  datatype Sched = Sched(tasks: seq<Task>, current: int, clock: nat, nextPid: nat)

  predicate Running(tasks: seq<Task>, i: int) {
    0 <= i < |tasks| && tasks[i].state == TaskRunning
  }

  // ----- One tick

  function Charged(s: Sched, r: Regs): (tasks: seq<Task>)
    requires s.current < |s.tasks|
    ensures |tasks| == |s.tasks|
  {
    if s.current < 0 then s.tasks
    else
      var t := s.tasks[s.current];
      s.tasks[s.current := t.(ctx := r, vtime := (t.vtime + t.priority) % WORD)]
  }

  /** The slot the search over the first `n` slots ends with: the first one with the least virtual time. */
  function Pick(tasks: seq<Task>, n: nat): (c: int)
    requires n <= |tasks|
    ensures -1 <= c < n
    ensures c >= 0 ==> Running(tasks, c) && tasks[c].vtime < U64_MAX
    ensures c >= 0 ==> forall j :: 0 <= j < n && Running(tasks, j) ==> tasks[c].vtime <= tasks[j].vtime
    ensures c >= 0 ==> forall j :: 0 <= j < c && Running(tasks, j) ==> tasks[c].vtime < tasks[j].vtime
    ensures c < 0 ==> forall j :: 0 <= j < n && Running(tasks, j) ==> tasks[j].vtime >= U64_MAX
  {
    if n == 0 then -1
    else
      var c := Pick(tasks, n - 1);
      if tasks[n - 1].state != TaskRunning || tasks[n - 1].vtime >= Least(tasks, c) then c else n - 1
  }

  function Least(tasks: seq<Task>, c: int): nat
    requires c < |tasks|
  {
    if c < 0 then U64_MAX else tasks[c].vtime
  }

  function Lowered(tasks: seq<Task>, shift: nat): (r: seq<Task>)
    requires shift <= WORD
    ensures |r| == |tasks|
    ensures forall i :: 0 <= i < |tasks| ==>
      r[i] == if tasks[i].state == TaskRunning then tasks[i].(vtime := (tasks[i].vtime + WORD - shift) % WORD)
        else tasks[i]
  {
    seq(|tasks|, i requires 0 <= i < |tasks| =>
      if tasks[i].state == TaskRunning then tasks[i].(vtime := (tasks[i].vtime + WORD - shift) % WORD) else tasks[i])
  }

  /** schedule() as a function of the state and the interrupted registers. */
  function Tick(s: Sched, r: Regs): (s': Sched)
    requires s.current < |s.tasks|
    requires forall j :: 0 <= j < |s.tasks| ==> s.tasks[j].vtime < WORD
    ensures |s'.tasks| == |s.tasks| && s'.current < |s'.tasks|
    ensures forall j :: 0 <= j < |s'.tasks| ==> s'.tasks[j].vtime < WORD
  {
    var tasks := Charged(s, r);
    var c := Pick(tasks, |tasks|);
    var current := if c < 0 then s.current else c;
    if current < 0 then s.(tasks := tasks)
    else Sched(Lowered(tasks, Least(tasks, c)), current, if s.clock + 1 >= 1024 then 0 else s.clock + 1, s.nextPid)
  }

  // ----- Creating and starting tasks

  function FreeSlot(tasks: seq<Task>, i: nat): (k: nat)
    requires i <= |tasks|
    ensures i <= k <= |tasks|
    ensures k < |tasks| ==> tasks[k].state == TaskFree
    ensures forall j :: i <= j < k ==> tasks[j].state != TaskFree
    decreases |tasks| - i
  {
    if i == |tasks| || tasks[i].state == TaskFree then i else FreeSlot(tasks, i + 1)
  }

  const USER_RFLAGS: nat := 0x202

  /**
   create_task, given the outcome of allocating a user page table; 0 when that failed, and then the slot stays free.
   */
  function Create(s: Sched, priority: nat, pml4: nat, cs: nat, ss: nat): Sched {
    var k := FreeSlot(s.tasks, 0);
    if k == |s.tasks| then s
    else if pml4 == 0 then s.(tasks := s.tasks[k := s.tasks[k].(vmem := 0)])
    else
      var t := s.tasks[k];
      s.(tasks := s.tasks[k := Task(s.nextPid, TaskInit, t.ctx.(rflags := USER_RFLAGS, cs := cs, ss := ss), pml4,
                                    t.vtime, priority)],
         nextPid := (s.nextPid + 1) % WORD)
  }

  function Start(s: Sched, k: nat, entry: nat, stackTop: nat): Sched
    requires k < |s.tasks|
  {
    var t := s.tasks[k];
    s.(tasks := s.tasks[k := t.(ctx := t.ctx.(rip := entry, rsp := stackTop), state := TaskRunning)])
  }

  // ----- The invariant of every run

  /** Every running task is at most one charge ahead of the chosen one, which stands at zero. */
  ghost predicate Inv(s: Sched) {
    && |s.tasks| == SLOTS && -1 <= s.current < SLOTS
    && (s.current >= 0 ==> Running(s.tasks, s.current) && s.tasks[s.current].vtime == 0)
    && forall i :: 0 <= i < SLOTS ==> TaskInv(s.tasks[i])
  }

  predicate TaskInv(t: Task) {
    t.priority < U32 && t.vtime <= t.priority && (t.state != TaskRunning ==> t.vtime == 0)
  }

  ghost predicate SomeRunning(s: Sched) {
    exists i :: Running(s.tasks, i)
  }

  /** Under the invariant a tick is exact: no wrap-around, everyone shifts by the same amount. */
  lemma {:induction false} TickExact(s: Sched, r: Regs) returns (m: nat)
    requires Inv(s) && (s.current >= 0 || SomeRunning(s))
    ensures var s' := Tick(s, r);
      && |s'.tasks| == SLOTS && Running(s'.tasks, s'.current) && s'.tasks[s'.current].vtime == 0
      && m <= U32
      && forall i :: 0 <= i < SLOTS ==>
           && s'.tasks[i].state == s.tasks[i].state && s'.tasks[i].priority == s.tasks[i].priority
           && (Running(s.tasks, i) ==>
                 s'.tasks[i].vtime == s.tasks[i].vtime + (if i == s.current then s.tasks[i].priority else 0) - m)
           && (!Running(s.tasks, i) ==> s'.tasks[i] == s.tasks[i])
           && s'.tasks[i].ctx == (if i == s.current then r else s.tasks[i].ctx)
           && s'.tasks[i].vmem == s.tasks[i].vmem && s'.tasks[i].pid == s.tasks[i].pid
    ensures Tick(s, r).nextPid == s.nextPid && (s.clock < 1024 ==> Tick(s, r).clock == (s.clock + 1) % 1024)
  {
    hide Charged, Lowered, Tick, TaskInv;
    InvBounds(s);
    var tasks := Charged(s, r);
    ChargedExact(s, r);
    var c := Pick(tasks, |tasks|);
    var k: int := if s.current >= 0 then s.current else var i :| Running(s.tasks, i); i;
    assert Running(s.tasks, k) && Running(tasks, k);
    assert tasks[k].vtime < U64_MAX;
    m := tasks[c].vtime;
    LoweredExact(tasks, c);
    TickIs(s, r);
  }

  lemma {:induction false} InvBounds(s: Sched)
    requires Inv(s)
    ensures forall j :: 0 <= j < SLOTS ==> s.tasks[j].vtime < U32
  {
    forall j | 0 <= j < SLOTS ensures s.tasks[j].vtime < U32 { assert TaskInv(s.tasks[j]); }
  }

  /** The parts of a tick that chooses a task. */
  lemma {:induction false} TickIs(s: Sched, r: Regs)
    requires s.current < |s.tasks| && forall j :: 0 <= j < |s.tasks| ==> s.tasks[j].vtime < WORD
    requires |Charged(s, r)| == |s.tasks| && Pick(Charged(s, r), |s.tasks|) >= 0
    requires Charged(s, r)[Pick(Charged(s, r), |s.tasks|)].vtime < U32
    ensures var tasks, s' := Charged(s, r), Tick(s, r);
      var c := Pick(tasks, |tasks|);
      && s'.tasks == Lowered(tasks, tasks[c].vtime) && s'.current == c && s'.nextPid == s.nextPid
      && s'.clock == if s.clock + 1 >= 1024 then 0 else s.clock + 1
  {
    hide Charged, Lowered;
  }

  lemma {:induction false} ChargedExact(s: Sched, r: Regs)
    requires Inv(s)
    ensures var tasks := Charged(s, r);
      && |tasks| == SLOTS
      && forall i :: 0 <= i < SLOTS ==>
           && tasks[i].state == s.tasks[i].state && tasks[i].priority == s.tasks[i].priority
           && tasks[i].vtime == s.tasks[i].vtime + (if i == s.current then s.tasks[i].priority else 0) < U32
           && tasks[i].ctx == (if i == s.current then r else s.tasks[i].ctx)
           && tasks[i].vmem == s.tasks[i].vmem && tasks[i].pid == s.tasks[i].pid
           && (i != s.current ==> tasks[i] == s.tasks[i])
  {
    forall i | 0 <= i < SLOTS
      ensures s.tasks[i].vtime + (if i == s.current then s.tasks[i].priority else 0) < U32
    {
      assert TaskInv(s.tasks[i]);
    }
  }

  /** Taking the least virtual time off every running task never goes below zero. */
  lemma {:induction false} LoweredExact(tasks: seq<Task>, c: nat)
    requires c < |tasks| && (forall i :: 0 <= i < |tasks| ==> tasks[i].vtime < U32)
    requires forall i :: 0 <= i < |tasks| && Running(tasks, i) ==> tasks[c].vtime <= tasks[i].vtime
    ensures var low := Lowered(tasks, tasks[c].vtime);
      forall i :: 0 <= i < |tasks| ==>
        low[i] == if Running(tasks, i) then tasks[i].(vtime := tasks[i].vtime - tasks[c].vtime) else tasks[i]
  {
    forall i | 0 <= i < |tasks| && Running(tasks, i)
      ensures (tasks[i].vtime + WORD - tasks[c].vtime) % WORD == tasks[i].vtime - tasks[c].vtime
    {
      assert tasks[c].vtime <= tasks[i].vtime;
    }
  }

  /** A tick keeps the invariant, and leaves some task chosen whenever one is running. */
  lemma {:induction false} TickInv(s: Sched, r: Regs)
    requires Inv(s)
    ensures Inv(Tick(s, r))
    ensures s.current >= 0 || SomeRunning(s) ==> Tick(s, r).current >= 0
    ensures s.current < 0 && !SomeRunning(s) ==> Tick(s, r) == s
  {
    if s.current >= 0 || SomeRunning(s) {
      var m := TickExact(s, r);
      var s' := Tick(s, r);
      assert s'.tasks[s'.current].vtime == 0;
      forall i | 0 <= i < SLOTS ensures TaskInv(s'.tasks[i]) {
        assert TaskInv(s.tasks[i]);
      }
    } else {
      assert forall i :: !Running(s.tasks, i);
    }
  }

  lemma {:induction false} CreateInv(s: Sched, priority: nat, pml4: nat, cs: nat, ss: nat)
    requires Inv(s) && priority < U32
    ensures Inv(Create(s, priority, pml4, cs, ss))
    ensures forall i :: 0 <= i < SLOTS && Running(s.tasks, i) ==>
      Create(s, priority, pml4, cs, ss).tasks[i] == s.tasks[i]
    ensures pml4 == 0 ==> FreeSlot(Create(s, priority, pml4, cs, ss).tasks, 0) == FreeSlot(s.tasks, 0)
  {
    var k := FreeSlot(s.tasks, 0);
    if k < |s.tasks| { assert TaskInv(s.tasks[k]); }
    if pml4 == 0 { SameFreeSlot(s.tasks, Create(s, priority, pml4, cs, ss).tasks, 0); }
  }

  lemma {:induction false} SameFreeSlot(a: seq<Task>, b: seq<Task>, i: nat)
    requires |a| == |b| && i <= |a| && forall j :: 0 <= j < |a| ==> a[j].state == b[j].state
    ensures FreeSlot(a, i) == FreeSlot(b, i)
    decreases |a| - i
  {
    if i < |a| { SameFreeSlot(a, b, i + 1); }
  }

  /** With a free slot and a page table the first free slot becomes the task asked for, and no other slot changes. */
  lemma {:induction false} CreateMakes(s: Sched, priority: nat, pml4: nat, cs: nat, ss: nat)
    requires FreeSlot(s.tasks, 0) < |s.tasks| && pml4 != 0
    ensures var k, s' := FreeSlot(s.tasks, 0), Create(s, priority, pml4, cs, ss); var t := s'.tasks[k];
      && t.priority == priority && t.vmem == pml4 && t.pid == s.nextPid && t.state == TaskInit
      && t.ctx.rflags == 0x202 && t.ctx.cs == cs && t.ctx.ss == ss && t.vtime == s.tasks[k].vtime
      && |s'.tasks| == |s.tasks| && (forall j :: 0 <= j < |s.tasks| && j != k ==> s'.tasks[j] == s.tasks[j])
      && s'.nextPid == (s.nextPid + 1) % WORD && s'.current == s.current && s'.clock == s.clock
  {
  }

  /** A slot that is started will be entered at `entry` with its stack at `stackTop`; nothing else about it changes. */
  lemma {:induction false} StartMakes(s: Sched, k: nat, entry: nat, stackTop: nat)
    requires k < |s.tasks|
    ensures var s' := Start(s, k, entry, stackTop); var t, t' := s.tasks[k], s'.tasks[k];
      && t'.ctx.rip == entry && t'.ctx.rsp == stackTop && t'.state == TaskRunning
      && t'.ctx.rflags == t.ctx.rflags && t'.ctx.cs == t.ctx.cs && t'.ctx.ss == t.ctx.ss
      && t'.priority == t.priority && t'.vmem == t.vmem && t'.pid == t.pid && t'.vtime == t.vtime
      && |s'.tasks| == |s.tasks| && (forall j :: 0 <= j < |s.tasks| && j != k ==> s'.tasks[j] == s.tasks[j])
      && s'.current == s.current
  {
  }

  /** Tasks have different process numbers, all of them below the next one. */
  ghost predicate PidsDiffer(s: Sched) {
    && (forall i :: 0 <= i < |s.tasks| && s.tasks[i].state != TaskFree ==> s.tasks[i].pid < s.nextPid)
    && (forall i, j :: 0 <= i < j < |s.tasks| && s.tasks[i].state != TaskFree && s.tasks[j].state != TaskFree ==>
          s.tasks[i].pid != s.tasks[j].pid)
  }

  /** Until 2^64 tasks have been created, no two of them have the same number. */
  lemma {:induction false} CreatePids(s: Sched, priority: nat, pml4: nat, cs: nat, ss: nat)
    requires PidsDiffer(s) && s.nextPid + 1 < WORD
    ensures PidsDiffer(Create(s, priority, pml4, cs, ss))
  {
    var k := FreeSlot(s.tasks, 0);
    if k < |s.tasks| && pml4 != 0 { CreateMakes(s, priority, pml4, cs, ss); }
  }

  lemma {:induction false} StartInv(s: Sched, k: nat, entry: nat, stackTop: nat)
    requires Inv(s) && k < SLOTS
    ensures Inv(Start(s, k, entry, stackTop))
  {
    assert TaskInv(s.tasks[k]);
  }

  // ----- Runs

  datatype Event =
    | CreateTask(priority: nat, pml4: nat, cs: nat, ss: nat)
    | RunTask(slot: nat, entry: nat, stackTop: nat)
    | Timer(regs: Regs)

  predicate Legal(e: Event) {
    (e.CreateTask? ==> e.priority < U32) && (e.RunTask? ==> e.slot < SLOTS)
  }

  ghost function Step(s: Sched, e: Event): (s': Sched)
    requires Inv(s) && Legal(e)
    ensures Inv(s')
  {
    match e
    case CreateTask(p, v, cs, ss) => CreateInv(s, p, v, cs, ss); Create(s, p, v, cs, ss)
    case RunTask(k, entry, top) => StartInv(s, k, entry, top); Start(s, k, entry, top)
    case Timer(r) => TickInv(s, r); Tick(s, r)
  }

  /** Every state of every run keeps the invariant, so no virtual time ever wraps around. */
  ghost function Run(s: Sched, es: seq<Event>): (s': Sched)
    requires Inv(s) && forall j :: 0 <= j < |es| ==> Legal(es[j])
    ensures Inv(s')
    decreases |es|
  {
    if es == [] then s else Run(Step(s, es[0]), es[1..])
  }

  /** How many ticks of the run charge task `i`. */
  ghost function Charges(s: Sched, es: seq<Event>, i: nat): nat
    requires Inv(s) && forall j :: 0 <= j < |es| ==> Legal(es[j])
    decreases |es|
  {
    if es == [] then 0
    else (if es[0].Timer? && s.current == i then 1 else 0) + Charges(Step(s, es[0]), es[1..], i)
  }

  lemma {:induction false} StepKeeps(s: Sched, e: Event, i: nat, j: nat)
    requires Inv(s) && Legal(e) && Running(s.tasks, i) && Running(s.tasks, j)
    ensures var s' := Step(s, e);
      && Running(s'.tasks, i) && s'.tasks[i].priority == s.tasks[i].priority
      && Running(s'.tasks, j) && s'.tasks[j].priority == s.tasks[j].priority
      && s'.tasks[i].vtime - s'.tasks[j].vtime == s.tasks[i].vtime - s.tasks[j].vtime
           + (if e.Timer? && s.current == i then s.tasks[i].priority else 0)
           - (if e.Timer? && s.current == j then s.tasks[j].priority else 0)
  {
    match e
    case CreateTask(p, v, cs, ss) => CreateInv(s, p, v, cs, ss);
    case RunTask(k, entry, top) =>
    case Timer(r) =>
      assert SomeRunning(s);
      var m := TickExact(s, r);
  }

  /** Renormalisation cancels out: the gap between two tasks grows by exactly what they were charged. */
  lemma {:induction false} GapIsCharges(s: Sched, es: seq<Event>, i: nat, j: nat)
    requires Inv(s) && (forall k :: 0 <= k < |es| ==> Legal(es[k])) && Running(s.tasks, i) && Running(s.tasks, j)
    ensures var s' := Run(s, es);
      && Running(s'.tasks, i) && s'.tasks[i].priority == s.tasks[i].priority
      && Running(s'.tasks, j) && s'.tasks[j].priority == s.tasks[j].priority
      && s'.tasks[i].vtime - s'.tasks[j].vtime == s.tasks[i].vtime - s.tasks[j].vtime
           + Charges(s, es, i) * s.tasks[i].priority - Charges(s, es, j) * s.tasks[j].priority
    decreases |es|
  {
    hide *;
    RunUnfolds(s, es, i);
    RunUnfolds(s, es, j);
    if es != [] {
      StepKeeps(s, es[0], i, j);
      var s1 := Step(s, es[0]);
      GapIsCharges(s1, es[1..], i, j);
      AddOne(Charges(s1, es[1..], i), s.tasks[i].priority);
      AddOne(Charges(s1, es[1..], j), s.tasks[j].priority);
    }
  }

  lemma {:induction false} RunUnfolds(s: Sched, es: seq<Event>, i: nat)
    requires Inv(s) && (forall k :: 0 <= k < |es| ==> Legal(es[k])) && Running(s.tasks, i)
    ensures i < |s.tasks|
    ensures es == [] ==> Run(s, es) == s && Charges(s, es, i) == 0
    ensures es != [] ==>
      var s1 := Step(s, es[0]);
      && Run(s, es) == Run(s1, es[1..])
      && Charges(s, es, i) == (if es[0].Timer? && s.current == i then 1 else 0) + Charges(s1, es[1..], i)
  {
  }

  lemma {:induction false} AddOne(n: nat, p: nat)
    ensures (1 + n) * p == p + n * p && (0 + n) * p == n * p
  {
  }

  /** Two tasks that start level are never charged further apart than the larger priority. */
  lemma {:induction false} ProportionalFairness(s: Sched, es: seq<Event>, i: nat, j: nat)
    requires Inv(s) && (forall k :: 0 <= k < |es| ==> Legal(es[k])) && Running(s.tasks, i) && Running(s.tasks, j)
    requires s.tasks[i].vtime == s.tasks[j].vtime
    ensures var gap := Charges(s, es, i) * s.tasks[i].priority - Charges(s, es, j) * s.tasks[j].priority;
      gap <= s.tasks[i].priority && -gap <= s.tasks[j].priority
  {
    GapIsCharges(s, es, i, j);
    assert TaskInv(Run(s, es).tasks[i]) && TaskInv(Run(s, es).tasks[j]);
  }

  /**
   Fairness from creation on: after tasks of priorities `p` and `q` were created and started, whatever else happens, the
   ticks charged to them, weighted with the priorities that were asked for, stay within one priority of each other.
   */
  lemma {:induction false} FairFromCreation(s: Sched, p: nat, q: nat, v: nat, w: nat, cs: nat, ss: nat,
                                            entry: nat, top: nat, es: seq<Event>)
    requires Inv(s) && p < U32 && q < U32 && v != 0 && w != 0 && forall k :: 0 <= k < |es| ==> Legal(es[k])
    requires FreeSlot(s.tasks, 0) < SLOTS
    requires FreeSlot(Create(s, p, v, cs, ss).tasks, 0) < SLOTS
    ensures var i := FreeSlot(s.tasks, 0); var s1 := Step(s, CreateTask(p, v, cs, ss));
      var j := FreeSlot(s1.tasks, 0); var s2 := Step(s1, CreateTask(q, w, cs, ss));
      var u := Step(Step(s2, RunTask(i, entry, top)), RunTask(j, entry, top));
      && Running(u.tasks, i) && Running(u.tasks, j) && i != j
      && -(q as int) <= Charges(u, es, i) * p - Charges(u, es, j) * q <= p
  {
    var i := FreeSlot(s.tasks, 0);
    var s1 := Step(s, CreateTask(p, v, cs, ss));
    var j := FreeSlot(s1.tasks, 0);
    var s2 := Step(s1, CreateTask(q, w, cs, ss));
    var s3 := Step(s2, RunTask(i, entry, top));
    var u := Step(s3, RunTask(j, entry, top));
    CreateMakes(s, p, v, cs, ss);
    CreateMakes(s1, q, w, cs, ss);
    StartMakes(s2, i, entry, top);
    StartMakes(s3, j, entry, top);
    assert s1.tasks[i].vtime == 0 by { assert TaskInv(s1.tasks[i]); }
    assert s2.tasks[j].vtime == 0 by { assert TaskInv(s2.tasks[j]); }
    hide Charges, Run;
    ProportionalFairness(u, es, i, j);
  }

  // ----- No starvation

  ghost function Ticks(s: Sched, f: nat -> Regs, n: nat): (s': Sched)
    requires Inv(s)
    ensures Inv(s')
    ensures s.current >= 0 ==> s'.current >= 0
    ensures forall i :: 0 <= i < SLOTS ==>
      s'.tasks[i].state == s.tasks[i].state && s'.tasks[i].priority == s.tasks[i].priority
    decreases n
  {
    if n == 0 then s
    else
      var t := Ticks(s, f, n - 1);
      TickInv(t, f(n - 1));
      TickSameTasks(t, f(n - 1));
      Tick(t, f(n - 1))
  }

  lemma {:induction false} TickSameTasks(s: Sched, r: Regs)
    requires Inv(s)
    ensures forall i :: 0 <= i < SLOTS ==>
      Tick(s, r).tasks[i].state == s.tasks[i].state && Tick(s, r).tasks[i].priority == s.tasks[i].priority
  {
  }

  ghost predicate PositivePriorities(tasks: seq<Task>) {
    forall j :: Running(tasks, j) ==> tasks[j].priority > 0
  }

  /** How often a task that is `d` behind another can be charged `p` before it is ahead. */
  function Turns(d: int, p: nat): nat
    requires p > 0
  {
    if d < 0 then 0 else d / p + 1
  }

  /** The turns all other running tasks of the first `n` slots may still take before task `i`. */
  ghost function Rank(tasks: seq<Task>, i: nat, n: nat): nat
    requires n <= |tasks| && i < |tasks| && PositivePriorities(tasks)
  {
    if n == 0 then 0
    else if n - 1 == i || !Running(tasks, n - 1) then Rank(tasks, i, n - 1)
    else Rank(tasks, i, n - 1) + Turns(tasks[i].vtime - tasks[n - 1].vtime, tasks[n - 1].priority)
  }

  /** The bound: the sum, over the other running tasks j, of floor(p_i / p_j) + 1. */
  ghost function Bound(tasks: seq<Task>, i: nat, n: nat): nat
    requires n <= |tasks| && i < |tasks| && PositivePriorities(tasks)
  {
    if n == 0 then 0
    else if n - 1 == i || !Running(tasks, n - 1) then Bound(tasks, i, n - 1)
    else Bound(tasks, i, n - 1) + Turns(tasks[i].priority, tasks[n - 1].priority)
  }

  lemma {:induction false} TurnsMonotone(d: int, a: nat, p: nat)
    requires d <= a && p > 0
    ensures Turns(d, p) <= Turns(a, p)
  {
    if d >= 0 { DivMonotone(d, a, p); }
  }

  lemma {:induction false} RankBound(s: Sched, i: nat, n: nat)
    requires Inv(s) && n <= SLOTS && Running(s.tasks, i) && PositivePriorities(s.tasks)
    ensures Rank(s.tasks, i, n) <= Bound(s.tasks, i, n)
  {
    if n > 0 {
      RankBound(s, i, n - 1);
      if n - 1 != i && Running(s.tasks, n - 1) {
        assert TaskInv(s.tasks[i]);
        TurnsMonotone(s.tasks[i].vtime - s.tasks[n - 1].vtime, s.tasks[i].priority, s.tasks[n - 1].priority);
        hide Turns;
      }
    }
  }

  /** Charging the chosen task uses up exactly one of its turns. */
  lemma {:induction false} TurnUsed(d: nat, p: nat)
    requires p > 0
    ensures Turns(d - p, p) + 1 == Turns(d, p)
  {
    if d >= p {
      assert d == (d - p) + p;
      DivLessOne(d, p);
    } else {
      assert d / p == 0;
    }
  }

  lemma {:induction false} DivLessOne(d: nat, p: nat)
    requires 0 < p <= d
    ensures (d - p) / p + 1 == d / p
  {
    assert d == (d / p) * p + d % p;
    MulStep(0, d / p, p);
    assert d / p >= 1;
    assert d - p == (d / p - 1) * p + d % p;
    DivUnique(d - p, p, d / p - 1, d % p);
  }

  /** While another task is chosen, each tick lowers the rank of task `i` by exactly one. */
  lemma {:induction false} TickRank(s: Sched, r: Regs, i: nat, n: nat)
    requires Inv(s) && n <= SLOTS && Running(s.tasks, i) && PositivePriorities(s.tasks)
    requires s.current >= 0 && s.current != i
    ensures PositivePriorities(Tick(s, r).tasks) && |Tick(s, r).tasks| == SLOTS
    ensures Rank(s.tasks, i, n) == Rank(Tick(s, r).tasks, i, n) + if s.current < n then 1 else 0
  {
    var m := TickExact(s, r);
    var s' := Tick(s, r);
    hide Tick;
    assert PositivePriorities(s'.tasks) by {
      forall j | Running(s'.tasks, j) ensures s'.tasks[j].priority > 0 { assert Running(s.tasks, j); }
    }
    RankShifted(s.tasks, s'.tasks, i, n, s.current, m);
  }

  lemma {:induction false} RankShifted(tasks: seq<Task>, tasks': seq<Task>, i: nat, n: nat, c: nat, m: int)
    requires n <= |tasks| == |tasks'| && i < |tasks| && PositivePriorities(tasks) && PositivePriorities(tasks')
    requires c != i && Running(tasks, c) && tasks[c].vtime == 0 && Running(tasks, i)
    requires forall j :: 0 <= j < |tasks| ==>
      && tasks'[j].state == tasks[j].state && tasks'[j].priority == tasks[j].priority
      && (Running(tasks, j) ==> tasks'[j].vtime == tasks[j].vtime + (if j == c then tasks[j].priority else 0) - m)
    ensures Rank(tasks, i, n) == Rank(tasks', i, n) + if c < n then 1 else 0
    decreases n
  {
    if n > 0 {
      RankShifted(tasks, tasks', i, n - 1, c, m);
      var j := n - 1;
      assert Running(tasks', j) <==> Running(tasks, j);
      if j == c { TurnUsed(tasks[i].vtime, tasks[j].priority); }
    }
  }

  /** Every running task is chosen within Rank, hence within Bound, ticks. */
  lemma {:induction false} NoStarvation(s: Sched, f: nat -> Regs, i: nat) returns (t: nat)
    requires Inv(s) && Running(s.tasks, i) && PositivePriorities(s.tasks) && s.current >= 0
    ensures t <= Bound(s.tasks, i, SLOTS)
    ensures Ticks(s, f, t).current == i
  {
    RankBound(s, i, SLOTS);
    TicksStep(s, f, 0);
    t := 0;
    while Ticks(s, f, t).current != i
      invariant PositivePriorities(Ticks(s, f, t).tasks) && |Ticks(s, f, t).tasks| == SLOTS
      invariant Rank(Ticks(s, f, t).tasks, i, SLOTS) + t == Rank(s.tasks, i, SLOTS)
      decreases Rank(Ticks(s, f, t).tasks, i, SLOTS)
    {
      NoStarvationTurn(s, f, i, t);
      t := t + 1;
    }
  }

  lemma {:induction false} NoStarvationTurn(s: Sched, f: nat -> Regs, i: nat, t: nat)
    requires Inv(s) && Running(s.tasks, i) && s.current >= 0
    requires PositivePriorities(Ticks(s, f, t).tasks) && Ticks(s, f, t).current != i
    ensures PositivePriorities(Ticks(s, f, t + 1).tasks)
    ensures |Ticks(s, f, t + 1).tasks| == |Ticks(s, f, t).tasks| == SLOTS
    ensures Rank(Ticks(s, f, t).tasks, i, SLOTS) == Rank(Ticks(s, f, t + 1).tasks, i, SLOTS) + 1
  {
    var u := Ticks(s, f, t);
    TicksStep(s, f, t);
    assert Running(u.tasks, u.current) && u.tasks[u.current].vtime == 0;
    hide Tick, Ticks, Rank;
    TickRank(u, f(t), i, SLOTS);
  }

  // ----- Exactly when nobody starves

  /** Task `i` is chosen again and again. */
  ghost predicate AlwaysAgain(s: Sched, f: nat -> Regs, i: nat)
    requires Inv(s)
  {
    forall n: nat :: ChosenFrom(s, f, i, n)
  }

  ghost predicate ChosenFrom(s: Sched, f: nat -> Regs, i: nat, n: nat)
    requires Inv(s)
  {
    exists m: nat :: n <= m && Ticks(s, f, m).current == i
  }

  ghost predicate NobodyStarves(s: Sched, f: nat -> Regs)
    requires Inv(s)
  {
    forall i: nat :: Running(s.tasks, i) ==> AlwaysAgain(s, f, i)
  }

  ghost predicate OnlyOneRunning(tasks: seq<Task>) {
    forall i, j :: Running(tasks, i) && Running(tasks, j) ==> i == j
  }

  lemma {:induction false} InvShape(s: Sched)
    requires Inv(s)
    ensures |s.tasks| == SLOTS && s.current < SLOTS
  {
  }

  lemma {:induction false} TicksStep(s: Sched, f: nat -> Regs, n: nat)
    requires Inv(s)
    ensures Ticks(s, f, 0) == s && Ticks(s, f, n + 1) == Tick(Ticks(s, f, n), f(n))
    ensures |Ticks(s, f, n).tasks| == SLOTS
    ensures forall i :: Running(Ticks(s, f, n).tasks, i) <==> Running(s.tasks, i)
  {
  }

  lemma {:induction false} TicksPriority(s: Sched, f: nat -> Regs, n: nat, i: nat)
    requires Inv(s) && Running(s.tasks, i)
    ensures Running(Ticks(s, f, n).tasks, i) && i < |s.tasks| == |Ticks(s, f, n).tasks|
    ensures Ticks(s, f, n).tasks[i].priority == s.tasks[i].priority
  {
  }

  lemma {:induction false} TicksPositive(s: Sched, f: nat -> Regs, n: nat)
    requires Inv(s) && PositivePriorities(s.tasks)
    ensures PositivePriorities(Ticks(s, f, n).tasks)
  {
    var u := Ticks(s, f, n);
    forall j | Running(u.tasks, j) ensures u.tasks[j].priority > 0 { assert Running(s.tasks, j); }
  }

  lemma {:induction false} TicksCompose(s: Sched, f: nat -> Regs, n: nat, m: nat)
    requires Inv(s)
    ensures Ticks(s, f, n + m) == Ticks(Ticks(s, f, n), (k: nat) => f(n + k), m)
    decreases m
  {
    hide *;
    var g := (k: nat) => f(n + k);
    TicksStep(Ticks(s, f, n), g, 0);
    if m > 0 {
      TicksCompose(s, f, n, m - 1);
      TicksStep(s, f, n + m - 1);
      TicksStep(Ticks(s, f, n), g, m - 1);
      assert g(m - 1) == f(n + m - 1);
    }
  }

  /** A chosen task of priority zero stays chosen for ever. */
  lemma {:induction false} ZeroPrioritySticks(s: Sched, f: nat -> Regs, z: nat, n: nat, m: nat)
    requires Inv(s) && Running(s.tasks, z) && s.tasks[z].priority == 0 && n > 0
    requires s.current >= 0 && Ticks(s, f, n).current == z
    ensures Ticks(s, f, n + m).current == z
    decreases m
  {
    hide *;
    if m > 0 {
      ZeroPrioritySticks(s, f, z, n, m - 1);
      var q := n + m - 2;
      TicksStep(s, f, q);
      TicksStep(s, f, q + 1);
      TicksPriority(s, f, q, z);
      StickyTick(Ticks(s, f, q), f(q), f(q + 1), z);
    }
  }

  lemma {:induction false} StickyTick(u: Sched, r: Regs, r': Regs, z: nat)
    requires Inv(u) && u.current >= 0 && Inv(Tick(u, r)) && Tick(u, r).current == z
    requires Running(u.tasks, z) && u.tasks[z].priority == 0
    ensures Tick(Tick(u, r), r').current == z
  {
    var m := TickExact(u, r);
    var v := Tick(u, r);
    var tasks := Charged(u, r);
    assert Running(v.tasks, z) && v.tasks[z].vtime == 0;
    assert v.tasks[z].priority == 0;
    // z was picked as the first least one, so no earlier running task stands at zero
    forall j | 0 <= j < z && Running(v.tasks, j) ensures v.tasks[j].vtime > 0 {
      assert Running(tasks, j) && Running(u.tasks, j);
      PickedFirst(u, r, z, j, m);
    }
    var tasks' := Charged(v, r');
    assert forall j :: 0 <= j < SLOTS ==> tasks'[j].vtime == v.tasks[j].vtime && tasks'[j].state == v.tasks[j].state;
    var c := Pick(tasks', SLOTS);
    assert Running(tasks', z) && tasks'[z].vtime == 0;
    assert c >= 0 && tasks'[c].vtime == 0;
    assert !(c < z) by { assert Running(v.tasks, c) && v.tasks[c].vtime == 0; }
  }

  lemma {:induction false} PickedFirst(u: Sched, r: Regs, z: nat, j: nat, m: nat)
    requires Inv(u) && u.current >= 0 && Tick(u, r).current == z && j < z < SLOTS
    requires Running(u.tasks, j) && Running(u.tasks, z)
    requires Tick(u, r).tasks[z].vtime == 0
    requires forall i :: 0 <= i < SLOTS && Running(u.tasks, i) ==>
      Tick(u, r).tasks[i].vtime == u.tasks[i].vtime + (if i == u.current then u.tasks[i].priority else 0) - m
    ensures Tick(u, r).tasks[j].vtime > 0
  {
    var tasks := Charged(u, r);
    ChargedExact(u, r);
    hide Charged, Lowered, Inv;
    assert Running(tasks, z) && tasks[z].vtime < U64_MAX;
    var c := Pick(tasks, SLOTS);
    assert c == z;
  }

  /** Two running tasks in the first two slots, the first of priority 0 and chosen. */
  function TwoTasks(): (s: Sched)
    ensures |s.tasks| == SLOTS && s.current == 0
    ensures forall i :: 0 <= i < SLOTS ==>
      s.tasks[i] == Task(0, if i < 2 then TaskRunning else TaskFree, Regs(0, 0, 0, 0, 0, []), 0, 0,
                         if i == 1 then 1 else 0)
  {
    Sched(seq(SLOTS, i => Task(0, if i < 2 then TaskRunning else TaskFree, Regs(0, 0, 0, 0, 0, []), 0, 0,
                               if i == 1 then 1 else 0)), 0, 0, 2)
  }

  /** The task in the second slot runs, with a positive priority, and is never chosen. */
  lemma {:induction false} StarvesForEver(f: nat -> Regs, n: nat)
    ensures var s := TwoTasks(); Inv(s) && Running(s.tasks, 1) && s.tasks[1].priority > 0 && Ticks(s, f, n).current == 0
  {
    var s := TwoTasks();
    TwoTasksInv();
    hide TwoTasks, Ticks, Tick, Inv;
    TicksStep(s, f, 0);
    if n > 0 {
      FirstStays(s, f(0));
      assert Ticks(s, f, 1).current == 0 by { assert 0 + 1 == 1; }
      ZeroPrioritySticks(s, f, 0, 1, n - 1);
    }
  }

  lemma {:induction false} TwoTasksInv()
    ensures var s := TwoTasks();
      Inv(s) && Running(s.tasks, 0) && s.tasks[0].priority == 0 && Running(s.tasks, 1) && s.tasks[1].priority > 0
  {
  }

  /** Charging a task of priority 0 in the first slot leaves it the first of least virtual time. */
  lemma {:induction false} FirstStays(s: Sched, r: Regs)
    requires Inv(s) && s.current == 0 && s.tasks[0].priority == 0
    ensures Tick(s, r).current == 0
  {
    var m := TickExact(s, r);
    ChargedExact(s, r);
    var tasks := Charged(s, r);
    assert tasks[0].vtime == 0 && Running(tasks, 0);
    PicksFirst(tasks, SLOTS);
  }

  lemma {:induction false} PicksFirst(tasks: seq<Task>, n: nat)
    requires 0 < n <= |tasks| && Running(tasks, 0) && tasks[0].vtime == 0
    ensures Pick(tasks, n) == 0
  {
  }

  /** With a task chosen, nobody starves exactly when all running priorities are positive or only one task runs. */
  lemma {:induction false} StarvationIff(s: Sched, f: nat -> Regs)
    requires Inv(s) && s.current >= 0
    ensures NobodyStarves(s, f) <==> PositivePriorities(s.tasks) || OnlyOneRunning(s.tasks)
  {
    if PositivePriorities(s.tasks) {
      forall i: nat, n: nat | Running(s.tasks, i) ensures ChosenFrom(s, f, i, n) {
        ChosenAgain(s, f, i, n);
      }
    } else if OnlyOneRunning(s.tasks) {
      forall i: nat, n: nat | Running(s.tasks, i) ensures ChosenFrom(s, f, i, n) {
        TicksStep(s, f, n);
        assert Running(Ticks(s, f, n).tasks, Ticks(s, f, n).current);
        assert Ticks(s, f, n).current == i;
      }
    } else {
      var z: nat :| Running(s.tasks, z) && s.tasks[z].priority == 0;
      var i: nat, j: nat :| Running(s.tasks, i) && Running(s.tasks, j) && i != j;
      OtherStarves(s, f, z, if i == z then j else i);
    }
  }

  lemma {:induction false} ChosenAgain(s: Sched, f: nat -> Regs, i: nat, n: nat)
    requires Inv(s) && s.current >= 0 && PositivePriorities(s.tasks) && Running(s.tasks, i)
    ensures ChosenFrom(s, f, i, n)
  {
    TicksStep(s, f, n);
    TicksPositive(s, f, n);
    var t := NoStarvation(Ticks(s, f, n), (k: nat) => f(n + k), i);
    TicksCompose(s, f, n, t);
    hide Ticks;
    assert Ticks(s, f, n + t).current == i;
  }

  lemma {:induction false} BoundSame(tasks: seq<Task>, tasks': seq<Task>, i: nat, n: nat)
    requires n <= |tasks| == |tasks'| && i < |tasks| && PositivePriorities(tasks) && PositivePriorities(tasks')
    requires forall j :: 0 <= j < |tasks| ==>
      tasks'[j].state == tasks[j].state && tasks'[j].priority == tasks[j].priority
    ensures Bound(tasks', i, n) == Bound(tasks, i, n)
  {
    if n > 0 { BoundSame(tasks, tasks', i, n - 1); }
  }

  /** Before any task has been chosen the first tick only chooses, so the wait is one tick longer. */
  lemma {:induction false} NoStarvationFromBoot(s: Sched, f: nat -> Regs, i: nat) returns (t: nat)
    requires Inv(s) && Running(s.tasks, i) && PositivePriorities(s.tasks) && s.current < 0
    ensures t <= Bound(s.tasks, i, SLOTS) + 1
    ensures Ticks(s, f, t).current == i
  {
    assert SomeRunning(s);
    hide *;
    var u := Ticks(s, f, 1);
    InvShape(s);
    InvShape(u);
    TickInv(s, f(0));
    TicksStep(s, f, 0);
    TicksPriority(s, f, 1, i);
    TicksPositive(s, f, 1);
    BoundSame(s.tasks, u.tasks, i, SLOTS);
    var n: nat := 1;
    var t1 := NoStarvation(u, (k: nat) => f(n + k), i);
    TicksCompose(s, f, n, t1);
    t := n + t1;
  }

  lemma {:induction false} OtherStarves(s: Sched, f: nat -> Regs, z: nat, w: nat)
    requires Inv(s) && s.current >= 0 && z != w
    requires Running(s.tasks, z) && s.tasks[z].priority == 0 && Running(s.tasks, w)
    ensures !AlwaysAgain(s, f, z) || !AlwaysAgain(s, f, w)
  {
    hide Ticks;
    if AlwaysAgain(s, f, z) && AlwaysAgain(s, f, w) {
      assert ChosenFrom(s, f, z, 1);
      var n: nat :| 1 <= n && Ticks(s, f, n).current == z;
      assert ChosenFrom(s, f, w, n);
      var m: nat :| n <= m && Ticks(s, f, m).current == w;
      ZeroPrioritySticks(s, f, z, n, m - n);
      assert false;
    }
  }

  // ----- A task resumes with the registers it was interrupted with

  lemma {:induction false} ResumesWhereItStopped(s: Sched, f: nat -> Regs, i: nat, n: nat)
    requires Inv(s) && s.current == i && n > 0
    requires forall m: nat :: 0 < m < n ==> Ticks(s, f, m).current != i
    ensures Ticks(s, f, n).tasks[i].ctx == f(0)
    decreases n
  {
    hide *;
    TicksStep(s, f, n - 1);
    TicksStep(s, f, 0);
    var u := Ticks(s, f, n - 1);
    InvShape(s);
    InvShape(u);
    if n > 1 {
      ResumesWhereItStopped(s, f, i, n - 1);
      assert u.current != i;
    }
    var m := TickExact(u, f(n - 1));
  }

  /** A slot that is not chosen keeps its registers and page table. */
  lemma {:induction false} WaitsUnchanged(s: Sched, f: nat -> Regs, i: nat, n: nat)
    requires Inv(s) && i < SLOTS && Running(s.tasks, i)
    requires forall m: nat :: m < n ==> Ticks(s, f, m).current != i
    ensures Inv(Ticks(s, f, n)) && Ticks(s, f, n).tasks[i].ctx == s.tasks[i].ctx
    ensures Ticks(s, f, n).tasks[i].vmem == s.tasks[i].vmem && Running(Ticks(s, f, n).tasks, i)
    decreases n
  {
    hide *;
    InvShape(s);
    TicksStep(s, f, 0);
    if n > 0 {
      WaitsUnchanged(s, f, i, n - 1);
      TicksStep(s, f, n - 1);
      var u := Ticks(s, f, n - 1);
      InvShape(u);
      assert SomeRunning(u) by { SomeOne(u, i); }
      var m := TickExact(u, f(n - 1));
      RunningSame(u, f(n - 1), i);
    }
  }

  lemma {:induction false} SomeOne(s: Sched, i: nat)
    requires Running(s.tasks, i)
    ensures SomeRunning(s)
  {
  }

  lemma {:induction false} RunningSame(s: Sched, r: Regs, i: nat)
    requires Inv(s) && Running(s.tasks, i)
    ensures Running(Tick(s, r).tasks, i)
  {
    SomeOne(s, i);
    var m := TickExact(s, r);
  }

  /** The first time it is chosen, a task is entered as it was created and started: registers, selectors, page table. */
  lemma {:induction false} EntersAsStarted(s: Sched, priority: nat, pml4: nat, cs: nat, ss: nat, entry: nat, top: nat,
                                           f: nat -> Regs, n: nat)
    requires Inv(s) && priority < U32 && pml4 != 0 && FreeSlot(s.tasks, 0) < SLOTS
    requires var k := FreeSlot(s.tasks, 0);
      var u := Step(Step(s, CreateTask(priority, pml4, cs, ss)), RunTask(k, entry, top));
      forall m: nat :: m < n ==> Ticks(u, f, m).current != k
    ensures var k := FreeSlot(s.tasks, 0);
      var u := Step(Step(s, CreateTask(priority, pml4, cs, ss)), RunTask(k, entry, top));
      Inv(Ticks(u, f, n)) && var t := Ticks(u, f, n).tasks[k];
      && t.ctx.rip == entry && t.ctx.rsp == top && t.ctx.cs == cs && t.ctx.ss == ss && t.ctx.rflags == 0x202
      && t.vmem == pml4
  {
    var k := FreeSlot(s.tasks, 0);
    var s1 := Step(s, CreateTask(priority, pml4, cs, ss));
    var u := Step(s1, RunTask(k, entry, top));
    CreateMakes(s, priority, pml4, cs, ss);
    StartMakes(s1, k, entry, top);
    hide Ticks;
    WaitsUnchanged(u, f, k, n);
  }

  // ----- The code

  class SchedulerState {
    const tasks: array<Task>
    var current: int
    var clock: nat
    var nextPid: nat

    ghost function View(): Sched
      reads this, tasks
    {
      Sched(tasks[..], current, clock, nextPid)
    }

    constructor ()
      ensures fresh(tasks) && Inv(View())
    {
      tasks := new Task[SLOTS](_ => Task(0, TaskFree, Regs(0, 0, 0, 0, 0, []), 0, 0, 0));
      current, clock, nextPid := -1, 0, 0;
    }

    method GetFreeSlot() returns (k: nat)
      ensures k == FreeSlot(tasks[..], 0)
    {
      k := 0;
      while k < tasks.Length && tasks[k].state != TaskFree
        invariant k <= tasks.Length && FreeSlot(tasks[..], k) == FreeSlot(tasks[..], 0)
      {
        k := k + 1;
      }
    }

    method CreateTask(priority: nat, pml4: nat, cs: nat, ss: nat) returns (slot: int)
      modifies this, tasks
      ensures View() == Create(old(View()), priority, pml4, cs, ss)
      ensures slot == var k := FreeSlot(old(tasks[..]), 0); if k == tasks.Length || pml4 == 0 then -1 else k
      ensures slot >= 0 ==> 0 <= slot < tasks.Length && old(tasks[slot].state) == TaskFree
      ensures slot >= 0 ==>
        tasks[slot].priority == priority && tasks[slot].vmem == pml4 && tasks[slot].state == TaskInit
      ensures slot >= 0 ==> tasks[slot].pid == old(nextPid) && nextPid == (old(nextPid) + 1) % WORD
      ensures slot >= 0 ==> tasks[slot].ctx.rflags == 0x202 && tasks[slot].ctx.cs == cs && tasks[slot].ctx.ss == ss
      ensures slot >= 0 ==> forall j :: 0 <= j < tasks.Length && j != slot ==> tasks[j] == old(tasks[j])
      ensures slot < 0 <==> pml4 == 0 || forall j :: 0 <= j < tasks.Length ==> old(tasks[j].state) != TaskFree
    {
      var k := GetFreeSlot();
      if k == tasks.Length { return -1; }
      tasks[k] := tasks[k].(vmem := pml4);
      if pml4 == 0 { return -1; }
      tasks[k] := tasks[k].(ctx := tasks[k].ctx.(rflags := USER_RFLAGS, cs := cs, ss := ss));
      tasks[k] := tasks[k].(priority := priority, pid := nextPid, state := TaskInit);
      nextPid := (nextPid + 1) % WORD;
      slot := k;
    }

    method RunTask(k: nat, entry: nat, stackTop: nat)
      requires k < tasks.Length
      modifies tasks
      ensures View() == Start(old(View()), k, entry, stackTop)
      ensures tasks[k].ctx == old(tasks[k].ctx).(rip := entry, rsp := stackTop) && tasks[k].state == TaskRunning
    {
      tasks[k] := tasks[k].(ctx := tasks[k].ctx.(rip := entry, rsp := stackTop), state := TaskRunning);
    }

    /**
     The registers and page table the interrupt returns to; unchanged registers and no table when no task was ever
     chosen.
     */
    method Schedule(r: Regs) returns (r': Regs, table: nat)
      requires Inv(View())
      modifies this, tasks
      ensures View() == Tick(old(View()), r)
      ensures current >= 0 ==> current < tasks.Length && r' == tasks[current].ctx && table == tasks[current].vmem
      ensures current < 0 ==> r' == r && table == 0
    {
      r', table := r, 0;
      if current >= 0 {
        tasks[current] := tasks[current].(ctx := r, vtime := (tasks[current].vtime + tasks[current].priority) % WORD);
      }
      ghost var charged := tasks[..];
      assert charged == Charged(old(View()), r);
      var minVtime := Choose();
      if current < 0 {
        assert View() == old(View()) && charged == old(tasks[..]);
        return;
      }
      LowerAll(minVtime);
      clock := clock + 1;
      if clock >= 1024 { clock := 0; }
      r', table := tasks[current].ctx, tasks[current].vmem;
    }

    /** The search for the first running slot of least virtual time; without one the current task stays. */
    method Choose() returns (minVtime: nat)
      modifies this
      ensures tasks[..] == old(tasks[..]) && clock == old(clock) && nextPid == old(nextPid)
      ensures var c := Pick(tasks[..], tasks.Length);
        minVtime == Least(tasks[..], c) && current == if c < 0 then old(current) else c
    {
      ghost var charged := tasks[..];
      minVtime := U64_MAX;
      var i := 0;
      while i < tasks.Length
        invariant 0 <= i <= tasks.Length && clock == old(clock) && nextPid == old(nextPid)
        invariant minVtime == Least(charged, Pick(charged, i))
        invariant current == if Pick(charged, i) < 0 then old(current) else Pick(charged, i)
      {
        if !(tasks[i].state != TaskRunning || tasks[i].vtime >= minVtime) {
          minVtime := tasks[i].vtime;
          current := i;
        }
        i := i + 1;
      }
    }

    method LowerAll(shift: nat)
      requires shift <= WORD
      modifies tasks
      ensures tasks[..] == Lowered(old(tasks[..]), shift)
    {
      ghost var before := tasks[..];
      var i := 0;
      while i < tasks.Length
        invariant 0 <= i <= tasks.Length
        invariant forall j :: 0 <= j < i ==> tasks[j] == Lowered(before, shift)[j]
        invariant forall j :: i <= j < tasks.Length ==> tasks[j] == before[j]
      {
        if tasks[i].state == TaskRunning {
          tasks[i] := tasks[i].(vtime := (tasks[i].vtime + WORD - shift) % WORD);
        }
        i := i + 1;
      }
    }
  }
}
