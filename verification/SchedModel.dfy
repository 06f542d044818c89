/**
 The cooperative scheduler as a state machine (kernel/sched.c): each call under the
 scheduler lock is one step.  `Apply` says what a step does; the lemmas say what holds
 over every run.
 */
module SchedModel {

  const N: nat := 32                              // MAX_TASKS
  const U64: nat := 0x1_0000_0000_0000_0000

  datatype TaskState = Unused | Ready | Running | Blocked | Zombie

  /** `stack` is 0 for no stack, `wake` is 0 for no timer. */
  datatype Task = Task(pid: nat, state: TaskState, stack: nat, wake: nat)

  const BLANK: Task := Task(0, Unused, 0, 0)

  /** The ready bitmask, as the set of its one bits. */
  type Mask = m: set<nat> | forall k :: k in m ==> k < N

  /**
   `freed` logs the stacks given back to the heap; `deadline[i]` is set while slot `i` is
   inside sched_sleep_ticks, to the tick it asked for (0 = not sleeping).
   */
  datatype Sched = Sched(tasks: seq<Task>, current: nat, mask: Mask, nextWake: nat, nextPid: nat, now: nat,
                         bias: nat, nextStack: nat, freed: seq<nat>, deadline: seq<nat>)

  datatype Op =
    | Spawn(stackOk: bool)
    | Yield
    | Exit
    | Kill(pid: int)
    | Sleep(ticks: nat)
    | SleepReturn
    | Tick
    | GuiLoad(weight: nat)

  predicate Sized(s: Sched) {
    |s.tasks| == N && |s.deadline| == N && s.current < N
  }

  // ---- choosing the next task ----

  /** The lowest set bit at or above `from`; N when there is none. */
  function FirstReady(mask: Mask, from: nat): (r: nat)
    requires from <= N
    ensures from <= r <= N
    ensures forall k: nat :: from <= k < r ==> k !in mask
    ensures r < N ==> r in mask
    decreases N - from
  {
    if from == N || from in mask then from else FirstReady(mask, from + 1)
  }

  /** The favoured slot under GUI load: the lowest ready slot, if it is neither idle nor current. */
  predicate Favoured(s: Sched, i: nat)
    requires Sized(s)
  {
    && s.bias > 0 && s.tasks[s.current].pid > 0
    && i == FirstReady(s.mask, 0) && 0 < i < N && s.tasks[i].pid > 0 && s.tasks[i].state == Ready && i != s.current
  }

  /** pick_next */
  function PickNext(s: Sched): (i: nat)
    requires Sized(s)
    ensures i < N
  {
    if s.mask == {} then
      if s.tasks[s.current].state == Running then s.current
      else if s.tasks[0].state == Ready || s.tasks[0].state == Running then 0
      else s.current
    else if Favoured(s, FirstReady(s.mask, 0)) then FirstReady(s.mask, 0)
    else RoundRobin(s.mask, s.current)
  }

  /** The first ready slot after `current`, wrapping round. */
  function RoundRobin(mask: Mask, current: nat): (i: nat)
    requires current < N && mask != {}
    ensures i < N && i in mask
  {
    var start := if current + 1 >= N then 0 else current + 1;
    var tail := FirstReady(mask, start);
    if tail < N then tail
    else
      var i := FirstReady(mask, 0);
      SomeReady(mask);
      i
  }

  lemma SomeReady(mask: Mask)
    requires mask != {}
    ensures FirstReady(mask, 0) < N
  {
    var k :| k in mask;
  }

  // ---- the steps ----

  function SetState(s: Sched, i: nat, st: TaskState): (t: Sched)
    requires Sized(s) && i < N
    ensures Sized(t)
  {
    s.(tasks := s.tasks[i := s.tasks[i].(state := st)])
  }

  /** Make slot `i` the running task. */
  function SwitchTo(s: Sched, i: nat): (t: Sched)
    requires Sized(s) && i < N
    ensures Sized(t)
  {
    SetState(s, i, Running).(current := i, mask := s.mask - {i})
  }

  /** sched_yield */
  function DoYield(s0: Sched): (t: Sched)
    requires Sized(s0)
    ensures Sized(t)
  {
    var p := s0.current;
    var s := if s0.tasks[p].state == Running then SetState(s0, p, Ready).(mask := s0.mask + {p}) else s0;
    var next := PickNext(s);
    if next != p then SwitchTo(s, next)
    else
      var back := (if s.tasks[p].state == Ready then SetState(s, p, Running) else s).(mask := s.mask - {p});
      if (back.tasks[p].state == Blocked || back.tasks[p].state == Zombie) && back.tasks[0].state != Unused && p != 0
      then SwitchTo(back, 0)
      else back
  }

  /** The slot sched_spawn_kthread takes: the first that is unused or a zombie, N when there is none. */
  function SpawnSlot(tasks: seq<Task>, from: nat): (i: nat)
    requires |tasks| == N && from <= N
    ensures from <= i <= N
    ensures forall k :: from <= k < i ==> tasks[k].state != Unused && tasks[k].state != Zombie
    ensures i < N ==> tasks[i].state == Unused || tasks[i].state == Zombie
    decreases N - from
  {
    if from == N || tasks[from].state == Unused || tasks[from].state == Zombie then from else SpawnSlot(tasks, from + 1)
  }

  /** sched_spawn_kthread; `stackOk` says whether the heap had a stack. */
  function DoSpawn(s: Sched, stackOk: bool): (t: Sched)
    requires Sized(s)
    ensures Sized(t)
  {
    var i := SpawnSlot(s.tasks, 0);
    if i == N then s else SpawnAt(s, i, stackOk)
  }

  /** The stack of the zombie that slot `i` may still hold is freed, then the slot is filled. */
  function SpawnAt(s: Sched, i: nat, stackOk: bool): (t: Sched)
    requires Sized(s) && i < N
    ensures Sized(t)
  {
    var reap := s.tasks[i].state == Zombie && s.tasks[i].stack != 0;
    var freed := if reap then s.freed + [s.tasks[i].stack] else s.freed;
    var base := s.(freed := freed, nextPid := s.nextPid + 1, deadline := s.deadline[i := 0]);
    if stackOk then
      base.(tasks := s.tasks[i := Task(s.nextPid, Ready, s.nextStack, 0)], mask := s.mask + {i},
          nextStack := s.nextStack + 1)
    else
      base.(tasks := s.tasks[i := Task(s.nextPid, Unused, 0, 0)])
  }

  function DoExit(s: Sched): (t: Sched)
    requires Sized(s)
    ensures Sized(t)
  {
    SetState(s, s.current, Zombie).(mask := s.mask - {s.current})
  }

  /** The slot sched_kill hits: the first live slot above 0 with that pid, N when there is none. */
  function KillSlot(tasks: seq<Task>, pid: int, from: nat): (i: nat)
    requires |tasks| == N && from <= N
    ensures from <= i <= N
    ensures i < N ==> tasks[i].pid == pid && tasks[i].state != Unused && tasks[i].state != Zombie
    decreases N - from
  {
    if from == N || (tasks[from].state != Unused && tasks[from].state != Zombie && tasks[from].pid == pid)
    then from else KillSlot(tasks, pid, from + 1)
  }

  predicate KillRefused(s: Sched, pid: int)
    requires Sized(s)
  {
    pid <= 0 || s.tasks[s.current].pid == pid || s.tasks[0].pid == pid
  }

  function DoKill(s: Sched, pid: int): (t: Sched)
    requires Sized(s)
    ensures Sized(t)
  {
    if KillRefused(s, pid) then s
    else
      var i := KillSlot(s.tasks, pid, 1);
      if i == N then s else SetState(s, i, Zombie).(mask := s.mask - {i})
  }

  /** The part of sched_sleep_ticks up to its first yield. */
  function DoSleep(s: Sched, ticks: nat): (t: Sched)
    requires Sized(s)
    ensures Sized(t)
  {
    if ticks == 0 then s
    else
      var wake := (s.now + ticks) % U64;
      var t := s.tasks[s.current].(wake := wake, state := Blocked);
      s.(tasks := s.tasks[s.current := t], mask := s.mask - {s.current},
         nextWake := if s.nextWake == 0 || wake < s.nextWake then wake else s.nextWake,
         deadline := s.deadline[s.current := s.now + ticks])
  }

  /** The polling loop of sched_sleep_ticks keeps yielding while this holds. */
  predicate StillWaiting(s: Sched)
    requires Sized(s)
  {
    s.tasks[s.current].wake != 0 && s.now < s.tasks[s.current].wake
  }

  function DoSleepReturn(s: Sched): (t: Sched)
    requires Sized(s)
    ensures Sized(t)
  {
    s.(tasks := s.tasks[s.current := s.tasks[s.current].(wake := 0)], deadline := s.deadline[s.current := 0])
  }

  // ---- waking sleepers ----

  predicate Due(t: Task, now: nat) {
    t.state == Blocked && t.wake != 0 && now >= t.wake
  }

  function Woken(t: Task, now: nat): Task {
    if Due(t, now) then t.(wake := 0, state := Ready) else t
  }

  function WokenAll(tasks: seq<Task>, now: nat): seq<Task> {
    seq(|tasks|, i requires 0 <= i < |tasks| => Woken(tasks[i], now))
  }

  function DueSet(tasks: seq<Task>, now: nat): set<nat> {
    set i: nat | i < |tasks| && Due(tasks[i], now)
  }

  /** The earliest timer among the first `k` slots that stay blocked; 0 when there is none. */
  function Earliest(tasks: seq<Task>, now: nat, k: nat): nat
    requires k <= |tasks|
  {
    if k == 0 then 0
    else
      var e := Earliest(tasks, now, k - 1);
      var t := tasks[k - 1];
      if t.state == Blocked && t.wake != 0 && !Due(t, now) && (e == 0 || t.wake < e) then t.wake else e
  }

  /** The full scan of sched_wake_sleepers. */
  function FullScan(s: Sched): (t: Sched)
    requires Sized(s)
    ensures Sized(t)
  {
    s.(tasks := WokenAll(s.tasks, s.now), mask := s.mask + DueSet(s.tasks, s.now),
       nextWake := Earliest(s.tasks, s.now, N))
  }

  predicate FastPath(s: Sched) {
    s.nextWake == 0 || s.now < s.nextWake
  }

  /** A timer interrupt: the clock moves on, then sched_on_timer. */
  function DoTick(s0: Sched): (t: Sched)
    requires Sized(s0)
    ensures Sized(t)
  {
    var s := s0.(now := s0.now + 1);
    if FastPath(s) then s else FullScan(s)
  }

  function Apply(s: Sched, op: Op): (t: Sched)
    requires Sized(s)
    ensures Sized(t)
  {
    match op
    case Spawn(ok) => DoSpawn(s, ok)
    case Yield => DoYield(s)
    case Exit => DoExit(s)
    case Kill(pid) => DoKill(s, pid)
    case Sleep(ticks) => DoSleep(s, ticks)
    case SleepReturn => DoSleepReturn(s)
    case Tick => DoTick(s)
    case GuiLoad(weight) => s.(bias := weight)
  }

  /**
   When a step can happen.  The current task issues everything but the timer; a task that
   has exited or gone to sleep only yields, slot 0 never exits, and a sleep call returns
   once its loop condition is false.
   */
  ghost predicate Enabled(s: Sched, op: Op)
    requires Sized(s)
  {
    var st := s.tasks[s.current].state;
    var awake := (st == Running || st == Ready) && s.deadline[s.current] == 0;
    match op
    case Spawn(_) => awake
    case Yield => true
    case Exit => awake && s.current != 0
    case Kill(_) => awake
    case Sleep(ticks) => awake && ticks < U64
    case SleepReturn => s.deadline[s.current] != 0 && !StillWaiting(s) && st != Zombie
    case Tick => s.now + 1 < U64
    case GuiLoad(_) => true
  }

  function Run(s: Sched, ops: seq<Op>): (t: Sched)
    requires Sized(s)
    ensures Sized(t)
  {
    if ops == [] then s else Apply(Run(s, ops[..|ops| - 1]), ops[|ops| - 1])
  }

  ghost predicate EnabledRun(s: Sched, ops: seq<Op>)
    requires Sized(s)
  {
    ops == [] || (EnabledRun(s, ops[..|ops| - 1]) && Enabled(Run(s, ops[..|ops| - 1]), ops[|ops| - 1]))
  }

  // ---- what every step keeps ----

  /** A ready bit is set exactly for the READY slots. */
  ghost predicate MaskOk(s: Sched)
    requires Sized(s)
  {
    forall i: nat :: i < N ==> (i in s.mask <==> s.tasks[i].state == Ready)
  }

  /** Only the current task is RUNNING; the current slot is in use and slot 0 is always alive. */
  ghost predicate RunOk(s: Sched)
    requires Sized(s)
  {
    && (forall i: nat :: i < N && s.tasks[i].state == Running ==> i == s.current)
    && s.tasks[s.current].state != Unused
    && s.tasks[0].state != Unused && s.tasks[0].state != Zombie
  }

  /** Slots other than 0 own a stack exactly while they are in use; no two share one, none is freed. */
  ghost predicate StackOk(s: Sched)
    requires Sized(s)
  {
    && s.tasks[0].stack == 0 && s.nextStack > 0
    && (forall i: nat :: 0 < i < N ==> (s.tasks[i].stack != 0 <==> s.tasks[i].state != Unused))
    && (forall i: nat :: i < N && s.tasks[i].stack != 0 ==>
          s.tasks[i].stack < s.nextStack && s.tasks[i].stack !in s.freed)
    && (forall i: nat, j: nat :: i < j < N && s.tasks[i].stack != 0 ==> s.tasks[i].stack != s.tasks[j].stack)
  }

  /** No stack is freed twice. */
  ghost predicate FreedOk(s: Sched) {
    && (forall k :: 0 <= k < |s.freed| ==> 0 < s.freed[k] < s.nextStack)
    && (forall k, l :: 0 <= k < l < |s.freed| ==> s.freed[k] != s.freed[l])
  }

  ghost predicate PidOk(s: Sched)
    requires Sized(s)
  {
    && s.nextPid > 0
    && (forall i: nat :: i < N && s.tasks[i].state != Unused ==> 0 < s.tasks[i].pid < s.nextPid)
    && (forall i: nat, j: nat :: i < j < N && s.tasks[i].state != Unused && s.tasks[j].state != Unused ==>
          s.tasks[i].pid != s.tasks[j].pid)
  }

  /** The cached wake tick is no later than any timed sleeper's. */
  ghost predicate WakeOk(s: Sched)
    requires Sized(s)
  {
    forall i: nat :: i < N && s.tasks[i].state == Blocked && s.tasks[i].wake != 0 ==> 0 < s.nextWake <= s.tasks[i].wake
  }

  /** A sleeper still has its timer, or the timer was cleared at or after the deadline. */
  ghost predicate SleepOk(s: Sched)
    requires Sized(s)
  {
    forall i: nat :: i < N && 0 < s.deadline[i] < U64 ==>
      s.tasks[i].wake == s.deadline[i] || (s.tasks[i].wake == 0 && s.now >= s.deadline[i])
  }

  /** What every step keeps.  The cached wake tick is not part of it (CacheStepIff). */
  ghost predicate Inv(s: Sched) {
    && Sized(s) && s.now < U64
    && MaskOk(s) && RunOk(s) && StackOk(s) && FreedOk(s) && PidOk(s) && SleepOk(s)
  }

  /** sched_init */
  function Boot(now: nat, bias: nat): Sched {
    Sched(seq(N, i => if i == 0 then Task(1, Running, 0, 0) else BLANK), 0, {}, 0, 2, now, bias, 1, [], seq(N, _ => 0))
  }

  lemma BootInv(now: nat, bias: nat)
    requires now < U64
    ensures Inv(Boot(now, bias)) && WakeOk(Boot(now, bias))
  {
  }

  // ---- steps that only move slots between states ----

  /** Nothing but states, the mask and the current slot differ, and no slot newly sleeps or changes hands. */
  ghost predicate OnlyStates(s: Sched, t: Sched)
    requires Sized(s) && Sized(t)
  {
    && t == s.(tasks := t.tasks, mask := t.mask, current := t.current)
    && forall i: nat :: i < N ==>
         && t.tasks[i] == s.tasks[i].(state := t.tasks[i].state)
         && (t.tasks[i].state == Unused <==> s.tasks[i].state == Unused)
         && (t.tasks[i].state == Blocked ==> s.tasks[i].state == Blocked)
  }

  lemma OnlyStatesInv(s: Sched, t: Sched)
    requires Inv(s) && Sized(t) && OnlyStates(s, t) && MaskOk(t) && RunOk(t)
    ensures Inv(t)
  {
    OnlyStatesOwners(s, t);
    hide StackOk, PidOk;
  }

  lemma OnlyStatesOwners(s: Sched, t: Sched)
    requires Sized(s) && StackOk(s) && PidOk(s) && Sized(t) && OnlyStates(s, t)
    ensures StackOk(t) && PidOk(t)
  {
  }

  /** pick_next takes a ready slot if there is one, and otherwise stays or falls back to slot 0. */
  lemma PickIs(s: Sched)
    requires Sized(s)
    ensures s.mask != {} ==> PickNext(s) in s.mask
    ensures s.mask == {} ==>
      || PickNext(s) == s.current
      || (PickNext(s) == 0 && (s.tasks[0].state == Ready || s.tasks[0].state == Running))
  {
    hide RoundRobin;
  }

  /** What a yield does to the states: at most the old and the new current slot change. */
  lemma YieldStates(s: Sched)
    requires Sized(s) && MaskOk(s) && RunOk(s)
    ensures var t := DoYield(s);
            OnlyStates(s, t) && MaskOk(t) && RunOk(t)
  {
    YieldSame(s);
    YieldMasks(s);
    hide OnlyStates, MaskOk, RunOk, DoYield;
  }

  lemma YieldSame(s: Sched)
    requires Sized(s) && MaskOk(s) && RunOk(s)
    ensures OnlyStates(s, DoYield(s))
  {
    hide PickNext;
    var p := s.current;
    PickIs(if s.tasks[p].state == Running then SetState(s, p, Ready).(mask := s.mask + {p}) else s);
  }

  lemma YieldMasks(s: Sched)
    requires Sized(s) && MaskOk(s) && RunOk(s)
    ensures MaskOk(DoYield(s)) && RunOk(DoYield(s))
  {
    hide PickNext;
    var p := s.current;
    PickIs(if s.tasks[p].state == Running then SetState(s, p, Ready).(mask := s.mask + {p}) else s);
  }

  lemma YieldInv(s: Sched)
    requires Inv(s)
    ensures Inv(DoYield(s))
  {
    hide MaskOk, RunOk, StackOk, FreedOk, PidOk, SleepOk, OnlyStates, DoYield;
    YieldStates(s);
    OnlyStatesInv(s, DoYield(s));
  }

  lemma ExitInv(s: Sched)
    requires Inv(s) && Enabled(s, Exit)
    ensures Inv(DoExit(s))
  {
    hide StackOk, FreedOk, PidOk, SleepOk;
    OnlyStatesInv(s, DoExit(s));
  }

  lemma KillInv(s: Sched, pid: int)
    requires Inv(s) && Enabled(s, Kill(pid))
    ensures Inv(DoKill(s, pid))
  {
    hide StackOk, FreedOk, PidOk, SleepOk, MaskOk, RunOk, OnlyStates, DoKill;
    KillStates(s, pid);
    OnlyStatesInv(s, DoKill(s, pid));
  }

  lemma KillStates(s: Sched, pid: int)
    requires Sized(s) && MaskOk(s) && RunOk(s)
    ensures var t := DoKill(s, pid); OnlyStates(s, t) && MaskOk(t) && RunOk(t)
  {
    hide KillSlot;
  }

  // ---- steps that change more ----

  lemma SpawnInv(s: Sched, ok: bool)
    requires Inv(s) && Enabled(s, Spawn(ok))
    ensures Inv(DoSpawn(s, ok))
  {
    hide StackOk, FreedOk, PidOk, MaskOk, RunOk, SleepOk, SpawnSlot;
    SpawnOwners(s, ok);
    SpawnStates(s, ok);
  }

  lemma SpawnStates(s: Sched, ok: bool)
    requires Sized(s) && MaskOk(s) && RunOk(s) && SleepOk(s) && Enabled(s, Spawn(ok))
    ensures var t := DoSpawn(s, ok);
            MaskOk(t) && RunOk(t) && SleepOk(t)
  {
    hide SpawnSlot;
  }

  lemma SpawnOwners(s: Sched, ok: bool)
    requires Sized(s) && RunOk(s) && StackOk(s) && FreedOk(s) && PidOk(s)
    ensures var t := DoSpawn(s, ok);
            StackOk(t) && FreedOk(t) && PidOk(t)
  {
    SpawnFrees(s, ok);
    SpawnStacks(s, ok);
    hide StackOk, FreedOk;
  }

  lemma SpawnFrees(s: Sched, ok: bool)
    requires Sized(s) && RunOk(s) && StackOk(s) && FreedOk(s)
    ensures FreedOk(DoSpawn(s, ok))
  {
    hide SpawnSlot;
    var i := SpawnSlot(s.tasks, 0);
    if i < N && s.tasks[i].state == Zombie {
      assert s.tasks[i].stack != 0 && s.tasks[i].stack !in s.freed;
    }
  }

  lemma SpawnStacks(s: Sched, ok: bool)
    requires Sized(s) && RunOk(s) && StackOk(s) && FreedOk(s)
    ensures StackOk(DoSpawn(s, ok))
  {
    hide SpawnSlot;
    var i := SpawnSlot(s.tasks, 0);
    if i < N && s.tasks[i].state == Zombie {
      assert s.tasks[i].stack != 0 && s.tasks[i].stack !in s.freed;
    }
  }

  lemma SleepInv(s: Sched, ticks: nat)
    requires Inv(s) && Enabled(s, Sleep(ticks))
    ensures Inv(DoSleep(s, ticks))
  {
    hide StackOk, FreedOk, PidOk, SleepOk;
    SleepOwners(s, ticks);
    SleepDeadlines(s, ticks);
  }

  lemma SleepDeadlines(s: Sched, ticks: nat)
    requires Sized(s) && SleepOk(s) && s.now < U64
    ensures SleepOk(DoSleep(s, ticks))
  {
  }

  lemma SleepOwners(s: Sched, ticks: nat)
    requires Sized(s) && StackOk(s) && FreedOk(s) && PidOk(s) && s.tasks[s.current].state != Unused
    ensures var t := DoSleep(s, ticks);
            StackOk(t) && FreedOk(t) && PidOk(t)
  {
  }

  lemma SleepReturnInv(s: Sched)
    requires Inv(s)
    ensures Inv(DoSleepReturn(s))
  {
  }

  lemma ScanInv(s: Sched)
    requires Inv(s)
    ensures Inv(FullScan(s))
  {
    hide StackOk, FreedOk, PidOk, Earliest;
    ScanOwners(s);
  }

  lemma ScanOwners(s: Sched)
    requires Sized(s) && StackOk(s) && FreedOk(s) && PidOk(s)
    ensures var t := FullScan(s);
            StackOk(t) && FreedOk(t) && PidOk(t)
  {
    hide StackOk, PidOk, FullScan;
    ScanKeeps(s);
    ScanStacks(s, FullScan(s));
    ScanPids(s, FullScan(s));
  }

  /** A scan changes no pid and no stack, and neither frees a slot nor takes one. */
  ghost predicate SameOwners(s: Sched, t: Sched)
    requires Sized(s) && Sized(t)
  {
    && t.nextPid == s.nextPid && t.nextStack == s.nextStack && t.freed == s.freed
    && forall i: nat :: i < N ==>
         && t.tasks[i].pid == s.tasks[i].pid && t.tasks[i].stack == s.tasks[i].stack
         && (t.tasks[i].state == Unused <==> s.tasks[i].state == Unused)
  }

  lemma ScanKeeps(s: Sched)
    requires Sized(s)
    ensures SameOwners(s, FullScan(s))
  {
    hide Earliest, DueSet;
  }

  lemma ScanStacks(s: Sched, t: Sched)
    requires Sized(s) && Sized(t) && SameOwners(s, t) && StackOk(s)
    ensures StackOk(t) && (FreedOk(s) ==> FreedOk(t))
  {
  }

  lemma ScanPids(s: Sched, t: Sched)
    requires Sized(s) && Sized(t) && SameOwners(s, t) && PidOk(s)
    ensures PidOk(t)
  {
  }

  lemma TickInv(s: Sched)
    requires Inv(s) && s.now + 1 < U64
    ensures Inv(DoTick(s))
  {
    hide StackOk, FreedOk, PidOk, FullScan, MaskOk, RunOk;
    var t := s.(now := s.now + 1);
    ClockInv(s);
    if !FastPath(t) {
      ScanInv(t);
    }
  }

  lemma ClockInv(s: Sched)
    requires Inv(s) && s.now + 1 < U64
    ensures Inv(s.(now := s.now + 1))
  {
  }

  lemma LoadInv(s: Sched, weight: nat)
    requires Inv(s)
    ensures Inv(s.(bias := weight))
  {
  }

  // ---- every run ----

  lemma StepInv(s: Sched, op: Op)
    requires Inv(s) && Enabled(s, op)
    ensures Inv(Apply(s, op))
  {
    hide MaskOk, RunOk, StackOk, FreedOk, PidOk, SleepOk, DoYield, DoSpawn, DoTick, DoKill, DoSleep,
         DoSleepReturn, DoExit;
    match op
    case Spawn(ok) => SpawnInv(s, ok);
    case Yield => YieldInv(s);
    case Exit => ExitInv(s);
    case Kill(pid) => KillInv(s, pid);
    case Sleep(ticks) => SleepInv(s, ticks);
    case SleepReturn => SleepReturnInv(s);
    case Tick => TickInv(s);
    case GuiLoad(weight) => LoadInv(s, weight);
  }

  /** The invariant holds after every run from boot. */
  lemma {:induction false} RunInv(s: Sched, ops: seq<Op>)
    requires Inv(s) && EnabledRun(s, ops)
    ensures Inv(Run(s, ops))
  {
    hide MaskOk, RunOk, StackOk, FreedOk, PidOk, SleepOk, Apply, Enabled;
    if ops != [] {
      RunInv(s, ops[..|ops| - 1]);
      StepInv(Run(s, ops[..|ops| - 1]), ops[|ops| - 1]);
    }
  }

  // ---- who gets to run ----

  /** A step that changes the current task picks one that was READY, or falls back to slot 0. */
  lemma OnlyReadyRuns(s: Sched, op: Op)
    requires Inv(s) && Enabled(s, op)
    ensures var t := Apply(s, op);
            t.current != s.current ==> op == Yield && (s.tasks[t.current].state == Ready || t.current == 0)
  {
    hide StackOk, FreedOk, PidOk, SleepOk, RoundRobin, FirstReady, WokenAll, DueSet, Earliest, SpawnSlot,
         KillSlot;
  }

  lemma YieldTouches(s: Sched, i: nat)
    requires Sized(s) && i < N && i != s.current && i != DoYield(s).current
    ensures DoYield(s).tasks[i] == s.tasks[i] && DoYield(s).nextPid == s.nextPid
  {
    hide RoundRobin, FirstReady;
  }

  /** Slot `i` is a zombie off the processor with pid `pid`, or has been given to a later task. */
  ghost predicate Buried(s: Sched, i: nat, pid: nat, born: nat)
    requires Sized(s) && i < N
  {
    || (s.tasks[i].state == Zombie && s.tasks[i].pid == pid && s.current != i)
    || s.tasks[i].pid >= born
  }

  /** Steps other than a yield leave the processor where it is, and a slot off it keeps its task or gets a new one. */
  lemma OthersTouch(s: Sched, op: Op, i: nat)
    requires Sized(s) && i < N && op != Yield
    ensures var t := Apply(s, op);
            && t.current == s.current && t.nextPid >= s.nextPid
            && (t.tasks[i].pid == s.tasks[i].pid || t.tasks[i].pid == s.nextPid)
            && (s.tasks[i].state == Zombie && i != s.current && t.tasks[i].pid != s.nextPid ==>
                  t.tasks[i].state == Zombie)
  {
    hide SpawnSlot, KillSlot, Earliest, DueSet, DoYield;
  }

  lemma BuriedStep(s: Sched, op: Op, i: nat, pid: nat, born: nat)
    requires Inv(s) && Enabled(s, op) && 0 < i < N && Buried(s, i, pid, born) && born <= s.nextPid
    ensures Buried(Apply(s, op), i, pid, born) && born <= Apply(s, op).nextPid
  {
    hide MaskOk, RunOk, StackOk, FreedOk, PidOk, SleepOk, Enabled, DoYield, DoSpawn, DoTick, DoKill, DoSleep,
         DoSleepReturn, DoExit;
    if op == Yield {
      BuriedYield(s, i, pid, born);
    } else {
      OthersTouch(s, op, i);
    }
  }

  lemma BuriedYield(s: Sched, i: nat, pid: nat, born: nat)
    requires Inv(s) && 0 < i < N && Buried(s, i, pid, born) && born <= s.nextPid
    ensures Buried(DoYield(s), i, pid, born) && born <= DoYield(s).nextPid
  {
    hide StackOk, FreedOk, SleepOk, DoYield;
    OnlyReadyRuns(s, Yield);
    if s.tasks[i].pid >= born {
      YieldStates(s);
    } else {
      YieldTouches(s, i);
    }
  }

  /** Once switched away from, a zombie never runs again before its slot has been respawned. */
  lemma {:induction false} ZombieNeverRuns(s: Sched, ops: seq<Op>, i: nat)
    requires Inv(s) && EnabledRun(s, ops) && 0 < i < N && s.tasks[i].state == Zombie && s.current != i
    ensures var t := Run(s, ops);
            t.tasks[i].pid == s.tasks[i].pid ==> t.tasks[i].state == Zombie && t.current != i
  {
    BuriedRun(s, ops, i);
    assert s.tasks[i].pid < s.nextPid;
  }

  lemma {:induction false} BuriedRun(s: Sched, ops: seq<Op>, i: nat)
    requires Inv(s) && EnabledRun(s, ops) && 0 < i < N && s.tasks[i].state == Zombie && s.current != i
    ensures Buried(Run(s, ops), i, s.tasks[i].pid, s.nextPid) && s.nextPid <= Run(s, ops).nextPid
  {
    hide MaskOk, RunOk, StackOk, FreedOk, PidOk, SleepOk, Apply, Enabled, Buried;
    if ops == [] {
      assert Buried(s, i, s.tasks[i].pid, s.nextPid) by {
        BuriedNow(s, i);
      }
    } else {
      var before := ops[..|ops| - 1];
      BuriedRun(s, before, i);
      RunInv(s, before);
      BuriedStep(Run(s, before), ops[|ops| - 1], i, s.tasks[i].pid, s.nextPid);
    }
  }

  lemma BuriedNow(s: Sched, i: nat)
    requires Sized(s) && i < N && s.tasks[i].state == Zombie && s.current != i
    ensures Buried(s, i, s.tasks[i].pid, s.nextPid)
  {
  }

  // ---- bounded waiting ----

  /** How many slots a round-robin search from `c` looks at to arrive at `k`. */
  function Turns(c: nat, k: nat): (d: nat)
    requires c < N && k < N
    ensures 1 <= d <= N
  {
    if k > c then k - c else k + N - c
  }

  /** Slot `i` could run: it is READY or running. */
  predicate Live(s: Sched, i: nat)
    requires Sized(s) && i < N
  {
    s.tasks[i].state == Ready || s.tasks[i].state == Running
  }

  /** No slot is favoured: there is no GUI load, or slot 0 is the lowest that could run. */
  predicate Fair(s: Sched)
    requires Sized(s)
  {
    s.bias == 0 || Live(s, 0)
  }

  /** Without a favoured slot every yield brings the search strictly closer to a waiting task. */
  lemma YieldCloser(s: Sched, k: nat)
    requires Inv(s) && Fair(s) && k < N && s.tasks[k].state == Ready && k != s.current
    ensures var t := DoYield(s);
            t.current == k || (t.tasks[k] == s.tasks[k] && Turns(t.current, k) < Turns(s.current, k))
  {
    hide StackOk, FreedOk, PidOk, SleepOk;
    assert k in s.mask;
  }

  ghost predicate WaitingAt(s: Sched, t: Sched, k: nat, used: nat)
    requires Sized(s) && Sized(t) && k < N
  {
    t.current != k && t.tasks[k] == s.tasks[k] && Turns(t.current, k) + used <= Turns(s.current, k)
  }

  lemma WaitingStep(s: Sched, t: Sched, op: Op, k: nat, used: nat)
    requires Sized(s) && Inv(t) && Enabled(t, op) && k < N && s.tasks[k].state == Ready && WaitingAt(s, t, k, used)
    requires op != Kill(s.tasks[k].pid) && (op == Yield ==> Fair(t))
    ensures var u := Apply(t, op);
            u.current == k || WaitingAt(s, u, k, used + if op == Yield then 1 else 0)
  {
    hide StackOk, FreedOk, SleepOk, DoYield, Earliest;
    if op == Yield {
      YieldCloser(t, k);
    }
  }

  function Yields(ops: seq<Op>): nat {
    if ops == [] then 0 else Yields(ops[..|ops| - 1]) + if ops[|ops| - 1] == Yield then 1 else 0
  }

  /** Every yield of the run happens with no slot favoured. */
  ghost predicate FairRun(s: Sched, ops: seq<Op>)
    requires Sized(s)
  {
    forall j :: 0 <= j < |ops| && ops[j] == Yield ==> Fair(Run(s, ops[..j]))
  }

  /**
   Bounded waiting over every run: a READY task that nobody kills becomes current within as
   many yields as there are slots, whatever spawns, sleeps, wakes and exits happen meanwhile.
   */
  lemma BoundedWaiting(s: Sched, ops: seq<Op>, k: nat)
    requires Inv(s) && EnabledRun(s, ops) && FairRun(s, ops)
    requires k < N && s.tasks[k].state == Ready && k != s.current
    requires Kill(s.tasks[k].pid) !in ops && Yields(ops) >= N
    ensures exists j :: 0 <= j <= |ops| && Run(s, ops[..j]).current == k
  {
    hide MaskOk, RunOk, StackOk, FreedOk, PidOk, SleepOk, Run, EnabledRun, Yields, WaitingAt, FairRun;
    if NeverAt(s, ops, k) {
      WaitingRun(s, ops, k);
      WaitingLimit(s, Run(s, ops), k, Yields(ops));
    }
  }

  /** Runs that start without GUI load and note none are fair. */
  lemma {:induction false} NoLoadFair(s: Sched, ops: seq<Op>)
    requires Sized(s) && s.bias == 0 && forall j :: 0 <= j < |ops| && ops[j].GuiLoad? ==> ops[j].weight == 0
    ensures FairRun(s, ops) && Run(s, ops).bias == 0
  {
    hide DoYield, DoSpawn, DoTick, DoKill, DoSleep, DoSleepReturn, DoExit;
    if ops != [] {
      var before := ops[..|ops| - 1];
      NoLoadFair(s, before);
      forall j | 0 <= j < |ops| && ops[j] == Yield ensures Fair(Run(s, ops[..j])) {
        if j < |before| {
          assert before[..j] == ops[..j] && before[j] == ops[j];
        } else {
          assert ops[..j] == before;
        }
      }
      BiasKept(Run(s, before), ops[|ops| - 1]);
    }
  }

  /** Only sched_note_gui_load changes the bias. */
  lemma BiasKept(s: Sched, op: Op)
    requires Sized(s)
    ensures Apply(s, op).bias == if op.GuiLoad? then op.weight else s.bias
  {
  }

  ghost predicate NeverAt(s: Sched, ops: seq<Op>, k: nat)
    requires Sized(s)
  {
    forall j :: 0 <= j <= |ops| ==> Run(s, ops[..j]).current != k
  }

  lemma WaitingLimit(s: Sched, t: Sched, k: nat, used: nat)
    requires Sized(s) && Sized(t) && k < N && WaitingAt(s, t, k, used)
    ensures used < N
  {
  }

  lemma NeverAtPrefix(s: Sched, ops: seq<Op>, k: nat)
    requires Sized(s) && NeverAt(s, ops, k) && ops != []
    ensures NeverAt(s, ops[..|ops| - 1], k) && Run(s, ops).current != k
  {
    hide Run;
    var before := ops[..|ops| - 1];
    forall j | 0 <= j <= |before| ensures Run(s, before[..j]).current != k {
      assert before[..j] == ops[..j];
    }
    assert ops[..|ops|] == ops;
  }

  lemma FairPrefix(s: Sched, ops: seq<Op>)
    requires Sized(s) && FairRun(s, ops) && ops != []
    ensures FairRun(s, ops[..|ops| - 1])
    ensures ops[|ops| - 1] == Yield ==> Fair(Run(s, ops[..|ops| - 1]))
  {
    hide Run, Fair;
    var before := ops[..|ops| - 1];
    forall j | 0 <= j < |before| && before[j] == Yield ensures Fair(Run(s, before[..j])) {
      assert before[..j] == ops[..j] && before[j] == ops[j];
    }
  }

  lemma {:induction false} WaitingRun(s: Sched, ops: seq<Op>, k: nat)
    requires Inv(s) && EnabledRun(s, ops) && FairRun(s, ops)
    requires k < N && s.tasks[k].state == Ready && k != s.current && Kill(s.tasks[k].pid) !in ops
    requires NeverAt(s, ops, k)
    ensures WaitingAt(s, Run(s, ops), k, Yields(ops))
  {
    hide MaskOk, RunOk, StackOk, FreedOk, PidOk, SleepOk, Apply, Enabled, NeverAt, FairRun;
    if ops != [] {
      hide WaitingAt;
      var before := ops[..|ops| - 1];
      NeverAtPrefix(s, ops, k);
      FairPrefix(s, ops);
      WaitingRun(s, before, k);
      RunInv(s, before);
      WaitingStep(s, Run(s, before), ops[|ops| - 1], k, Yields(before));
    }
  }

  // ---- starvation under GUI load ----

  /** Under GUI load two lower slots than `k` pass the processor back and forth, with slot 0 asleep. */
  ghost predicate Starving(s: Sched, k: nat)
    requires Sized(s) && k < N
  {
    s.bias > 0 && !Live(s, 0) && TwoBelow(s, k)
  }

  ghost predicate TwoBelow(s: Sched, k: nat)
    requires Sized(s) && k < N
  {
    exists a: nat, b: nat :: a < b < k && Live(s, a) && Live(s, b)
  }

  /** The ready mask as pick_next sees it in a yield: the slots that could run. */
  ghost function YieldMask(s: Sched): Mask
    requires Sized(s)
  {
    if s.tasks[s.current].state == Running then s.mask + {s.current} else s.mask
  }

  lemma YieldMaskLive(s: Sched, i: nat)
    requires Inv(s) && i < N
    ensures i in YieldMask(s) <==> Live(s, i)
  {
    hide StackOk, FreedOk, PidOk, SleepOk;
  }

  /** With slot 0 asleep under GUI load a yield goes to the lowest slot that could run, or from it to the next. */
  lemma YieldUnderLoad(s: Sched)
    requires Inv(s) && s.bias > 0 && !Live(s, 0) && YieldMask(s) != {}
    ensures var mask, t := YieldMask(s), DoYield(s);
            var low := FirstReady(mask, 0);
            t.current == if low != s.current then low else RoundRobin(mask, low)
  {
    hide StackOk, FreedOk, SleepOk;
    var mask := YieldMask(s);
    SomeReady(mask);
    YieldMaskLive(s, 0);
    var low := FirstReady(mask, 0);
    YieldMaskLive(s, low);
  }

  /** As long as some slot could run, a yield makes none able or unable to. */
  lemma YieldKeepsLive(s: Sched, some: nat, i: nat)
    requires Inv(s) && some < N && Live(s, some) && i < N
    ensures var t := DoYield(s);
            && t.bias == s.bias && (Live(t, i) <==> Live(s, i))
  {
    hide StackOk, FreedOk, PidOk, SleepOk, PickNext;
    YieldMaskLive(s, some);
    var p := s.current;
    PickIs(if s.tasks[p].state == Running then SetState(s, p, Ready).(mask := s.mask + {p}) else s);
  }

  lemma StarvingStep(s: Sched, k: nat)
    requires Inv(s) && k < N && Starving(s, k)
    ensures var t := DoYield(s); Starving(t, k) && t.current != k
  {
    hide StackOk, FreedOk, PidOk, SleepOk, DoYield, Live, MaskOk, RunOk;
    var t := DoYield(s);
    var a: nat, b: nat :| a < b < k && Live(s, a) && Live(s, b);
    YieldKeepsLive(s, a, 0);
    YieldKeepsLive(s, a, a);
    YieldKeepsLive(s, a, b);
    YieldMaskLive(s, a);
    YieldMaskLive(s, b);
    YieldUnderLoad(s);
  }

  ghost function YieldTimes(n: nat): seq<Op> {
    seq(n, _ => Yield)
  }

  lemma {:induction false} StarvesOn(s: Sched, k: nat, n: nat)
    requires Inv(s) && k < N && k != s.current && Starving(s, k)
    ensures var t := Run(s, YieldTimes(n)); Inv(t) && Starving(t, k) && t.current != k
  {
    hide MaskOk, RunOk, StackOk, FreedOk, PidOk, SleepOk, DoYield, Starving;
    if n > 0 {
      StarvesOn(s, k, n - 1);
      assert YieldTimes(n)[..n - 1] == YieldTimes(n - 1);
      var t := Run(s, YieldTimes(n - 1));
      StarvingStep(t, k);
      YieldInv(t);
    }
  }

  lemma FairStays(s: Sched)
    requires Inv(s) && Fair(s)
    ensures Inv(DoYield(s)) && Fair(DoYield(s))
  {
    hide MaskOk, RunOk, StackOk, FreedOk, PidOk, SleepOk, DoYield, Live;
    YieldInv(s);
    BiasKept(s, Yield);
    if Live(s, 0) {
      YieldKeepsLive(s, 0, 0);
    }
  }

  lemma {:induction false} YieldsRun(s: Sched, n: nat)
    requires Inv(s) && Fair(s)
    ensures EnabledRun(s, YieldTimes(n)) && Yields(YieldTimes(n)) == n
    ensures Inv(Run(s, YieldTimes(n))) && Fair(Run(s, YieldTimes(n)))
  {
    hide MaskOk, RunOk, StackOk, FreedOk, PidOk, SleepOk, DoYield, Fair;
    if n > 0 {
      YieldsRun(s, n - 1);
      assert YieldTimes(n)[..n - 1] == YieldTimes(n - 1);
      FairStays(Run(s, YieldTimes(n - 1)));
    }
  }

  lemma YieldsFair(s: Sched, n: nat)
    requires Inv(s) && Fair(s)
    ensures FairRun(s, YieldTimes(n))
  {
    hide MaskOk, RunOk, StackOk, FreedOk, PidOk, SleepOk, Run, Fair;
    forall j | 0 <= j < n ensures Fair(Run(s, YieldTimes(n)[..j])) {
      assert YieldTimes(n)[..j] == YieldTimes(j);
      YieldsRun(s, j);
    }
  }

  /** The lowest or second lowest slot that could run gets there in two yields. */
  lemma LowReached(s: Sched, k: nat)
    requires Inv(s) && k < N && s.tasks[k].state == Ready && k != s.current && s.bias > 0 && !Live(s, 0) &&
        !TwoBelow(s, k)
    ensures DoYield(s).current == k || DoYield(DoYield(s)).current == k
  {
    hide StackOk, FreedOk, PidOk, SleepOk, DoYield, MaskOk, RunOk;
    var low := OneStep(s, k);
    if low != k && s.current != low {
      var t := DoYield(s);
      YieldInv(s);
      forall i: nat | i < N ensures Live(t, i) <==> Live(s, i) {
        YieldKeepsLive(s, k, i);
      }
      BiasKept(s, Yield);
      var again := OneStep(t, k);
    }
  }

  /** One yield goes to the lowest slot, and from the lowest one to `k` if nothing else is below it. */
  lemma OneStep(s: Sched, k: nat) returns (low: nat)
    requires Inv(s) && k < N && Live(s, k) && k != s.current && s.bias > 0 && !Live(s, 0) && !TwoBelow(s, k)
    ensures low <= k && Live(s, low) && forall i: nat :: i < low ==> !Live(s, i)
    ensures DoYield(s).current == if s.current != low then low else k
  {
    hide StackOk, FreedOk, PidOk, SleepOk, DoYield, MaskOk, RunOk, Live, YieldMask;
    var mask := YieldMask(s);
    forall i: nat | i < N ensures i in mask <==> Live(s, i) {
      YieldMaskLive(s, i);
    }
    YieldUnderLoad(s);
    low := FirstReady(mask, 0);
    assert k in mask;
    if s.current == low {
      assert FirstReady(mask, low + 1) == k;
    }
  }

  /** A waiting task gets to run by yields alone, within as many as there are slots, exactly when it is not starving. */
  lemma WaitingEndsIff(s: Sched, k: nat)
    requires Inv(s) && k < N && s.tasks[k].state == Ready && k != s.current
    ensures (exists n: nat :: n <= N && Run(s, YieldTimes(n)).current == k) <==> !Starving(s, k)
    ensures Starving(s, k) ==> forall n: nat :: Run(s, YieldTimes(n)).current != k
  {
    hide MaskOk, RunOk, StackOk, FreedOk, PidOk, SleepOk, DoYield, Live, TwoBelow, EnabledRun, FairRun, Yields;
    if Starving(s, k) {
      forall n: nat ensures Run(s, YieldTimes(n)).current != k {
        StarvesOn(s, k, n);
      }
    } else if Fair(s) {
      YieldsFair(s, N);
      YieldsRun(s, N);
      BoundedWaiting(s, YieldTimes(N), k);
      var j :| 0 <= j <= N && Run(s, YieldTimes(N)[..j]).current == k;
      assert YieldTimes(N)[..j] == YieldTimes(j);
    } else {
      LowReached(s, k);
      TwoYields(s);
      if DoYield(s).current == k {
        assert Run(s, YieldTimes(1)).current == k;
      } else {
        assert Run(s, YieldTimes(2)).current == k;
      }
    }
  }

  lemma TwoYields(s: Sched)
    requires Sized(s)
    ensures Run(s, YieldTimes(1)) == DoYield(s) && Run(s, YieldTimes(2)) == DoYield(DoYield(s))
  {
    hide DoYield;
    assert YieldTimes(1)[..0] == [] && YieldTimes(2)[..1] == YieldTimes(1);
    assert Run(s, []) == s;
  }

  lemma RunMore(s: Sched, ops: seq<Op>, op: Op)
    requires Sized(s)
    ensures Run(s, ops + [op]) == Apply(Run(s, ops), op)
    ensures EnabledRun(s, ops + [op]) <==> EnabledRun(s, ops) && Enabled(Run(s, ops), op)
  {
    hide Apply, Enabled;
    assert (ops + [op])[..|ops|] == ops;
  }

  /** The boot task runs and the `n` tasks it has spawned wait in the slots after it. */
  ghost predicate Spawned(s: Sched, n: nat)
    requires Sized(s)
  {
    && s.current == 0 && s.tasks[0].state == Running && s.bias == 0 && (forall i: nat :: i < N ==> s.deadline[i] == 0)
    && (forall i: nat :: 0 < i < N ==> s.tasks[i].state == if i <= n then Ready else Unused)
  }

  lemma SpawnedStep(s: Sched, n: nat)
    requires Sized(s) && Spawned(s, n) && n + 1 < N
    ensures Enabled(s, Spawn(true)) && Apply(s, Spawn(true)).now == s.now && Spawned(Apply(s, Spawn(true)), n + 1)
  {
    hide SpawnSlot;
    var i := SpawnSlot(s.tasks, 0);
    assert s.tasks[n + 1].state == Unused;
    assert i == n + 1;
  }

  ghost function LoadedStart(ticks: nat): seq<Op> {
    [Spawn(true)] + [Spawn(true)] + [Spawn(true)] + [GuiLoad(1)] + [Sleep(ticks)] + [Yield]
  }

  /** Starvation is reached: the boot task spawns three others, the desktop notes its load, and the boot task sleeps. */
  lemma StarvationReached(now: nat, ticks: nat)
    requires 0 < ticks && now + ticks < U64
    ensures var s := Boot(now, 0);
            var t := Run(s, LoadedStart(ticks));
            && EnabledRun(s, LoadedStart(ticks)) && Inv(t)
            && t.current == 1 && t.tasks[3].state == Ready && Starving(t, 3)
  {
    hide Apply, Enabled, Inv, Run, EnabledRun;
    var s := Boot(now, 0);
    var one, two, three := [Spawn(true)], [Spawn(true)] + [Spawn(true)], [Spawn(true)] + [Spawn(true)] + [Spawn(true)];
    BootInv(now, 0);
    assert Run(s, []) == s && EnabledRun(s, []) by { NoSteps(s); }
    assert [] + [Spawn(true)] == one;
    RunMore(s, [], Spawn(true));
    SpawnedStep(s, 0);
    RunMore(s, one, Spawn(true));
    SpawnedStep(Run(s, one), 1);
    RunMore(s, two, Spawn(true));
    SpawnedStep(Run(s, two), 2);
    RunMore(s, three, GuiLoad(1));
    RunMore(s, three + [GuiLoad(1)], Sleep(ticks));
    RunMore(s, three + [GuiLoad(1)] + [Sleep(ticks)], Yield);
    RunInv(s, three);
    LoadedSleep(Run(s, three), ticks);
    RunInv(s, LoadedStart(ticks));
  }

  lemma NoSteps(s: Sched)
    requires Sized(s)
    ensures Run(s, []) == s && EnabledRun(s, [])
  {
  }

  lemma LoadedSleep(s: Sched, ticks: nat)
    requires Inv(s) && Spawned(s, 3) && 0 < ticks && s.now + ticks < U64
    ensures var a := Apply(s, GuiLoad(1));
            var b := Apply(a, Sleep(ticks));
            var t := Apply(b, Yield);
            && Enabled(s, GuiLoad(1)) && Enabled(a, Sleep(ticks)) && Enabled(b, Yield)
            && t.current == 1 && t.tasks[3].state == Ready && Starving(t, 3)
  {
    hide MaskOk, RunOk, StackOk, FreedOk, PidOk, SleepOk, DoYield, Starving;
    var a := Apply(s, GuiLoad(1));
    StepInv(s, GuiLoad(1));
    var b := Apply(a, Sleep(ticks));
    StepInv(a, Sleep(ticks));
    AsleepUnderLoad(b);
  }

  lemma AsleepUnderLoad(b: Sched)
    requires Inv(b) && b.bias > 0 && b.current == 0 && b.tasks[0].state == Blocked
    requires b.tasks[1].state == Ready && b.tasks[2].state == Ready && b.tasks[3].state == Ready
    ensures var t := DoYield(b);
            t.current == 1 && t.tasks[3].state == Ready && Starving(t, 3)
  {
    hide StackOk, FreedOk, PidOk, SleepOk, DoYield;
    var t := DoYield(b);
    assert 1 in YieldMask(b) && 0 !in YieldMask(b);
    YieldUnderLoad(b);
    assert FirstReady(YieldMask(b), 0) == 1;
    YieldTouches(b, 3);
    YieldKeepsLive(b, 1, 0);
    YieldKeepsLive(b, 1, 1);
    YieldKeepsLive(b, 1, 2);
    assert Live(t, 1) && Live(t, 2);
  }

  // ---- sleepers ----

  /** With nothing due, the timer's shortcut leaves the tasks and the mask as a full scan would. */
  lemma FastPathAgrees(s: Sched)
    requires Sized(s) && WakeOk(s) && FastPath(s)
    ensures FullScan(s).tasks == s.tasks && FullScan(s).mask == s.mask
  {
    hide Earliest;
    assert forall i: nat :: i < N ==> !Due(s.tasks[i], s.now);
    assert DueSet(s.tasks, s.now) == {};
  }

  /** While the cached wake tick is right, no sleeper whose time has come is still blocked after a timer interrupt. */
  lemma TickWakesAllDue(s: Sched, i: nat)
    requires Sized(s) && WakeOk(s) && i < N
    ensures !Due(DoTick(s).tasks[i], DoTick(s).now)
  {
    hide Earliest;
  }

  /** sched_sleep_ticks returns at or after its deadline exactly when the deadline fits the tick counter. */
  lemma SleepReturnsOnTime(s: Sched)
    requires Inv(s) && Enabled(s, SleepReturn)
    ensures s.now >= s.deadline[s.current] <==> s.deadline[s.current] < U64
  {
  }

  /** A sleep of 2^64 - 1 ticks may return at once, with the clock before its deadline. */
  lemma SleepReturnsEarly(now: nat)
    requires 0 < now < U64
    ensures var s := Boot(now, 0);
            var t := Apply(s, Sleep(U64 - 1));
            && Enabled(s, Sleep(U64 - 1)) && Enabled(t, SleepReturn) && t.now < t.deadline[t.current]
  {
    assert (now + (U64 - 1)) % U64 == now - 1;
  }

  // ---- the cached wake tick ----

  /** Some slot other than the current one is in a timed sleep. */
  ghost predicate OthersTimed(s: Sched)
    requires Sized(s)
  {
    exists i: nat :: i < N && i != s.current && s.tasks[i].state == Blocked && s.tasks[i].wake != 0
  }

  /** Going to sleep keeps the cached wake tick usable unless the deadline wraps to 0 with others asleep. */
  lemma SleepKeepsCacheIff(s: Sched, ticks: nat)
    requires Sized(s) && WakeOk(s) && ticks > 0
    ensures WakeOk(DoSleep(s, ticks)) <==>
      || (s.now + ticks) % U64 != 0
      || !OthersTimed(s)
  {
    if (s.now + ticks) % U64 == 0 && OthersTimed(s) {
      var i: nat :| i < N && i != s.current && s.tasks[i].state == Blocked && s.tasks[i].wake != 0;
      assert DoSleep(s, ticks).tasks[i] == s.tasks[i];
    }
  }

  lemma {:induction false} EarliestBound(tasks: seq<Task>, now: nat, k: nat)
    requires k <= |tasks|
    ensures forall i: nat :: i < k && tasks[i].state == Blocked && tasks[i].wake != 0 && !Due(tasks[i], now) ==>
      0 < Earliest(tasks, now, k) <= tasks[i].wake
  {
    if k > 0 {
      EarliestBound(tasks, now, k - 1);
    }
  }

  /** A full scan makes the cached wake tick right, whatever it was. */
  lemma ScanCaches(s: Sched)
    requires Sized(s)
    ensures WakeOk(FullScan(s))
  {
    hide Earliest, DueSet;
    EarliestBound(s.tasks, s.now, N);
  }

  lemma TickCaches(s: Sched)
    requires Sized(s) && WakeOk(s)
    ensures WakeOk(DoTick(s))
  {
    hide FullScan;
    ScanCaches(s.(now := s.now + 1));
  }

  lemma YieldCaches(s: Sched)
    requires Inv(s) && WakeOk(s)
    ensures WakeOk(DoYield(s))
  {
    hide StackOk, FreedOk, PidOk, SleepOk, MaskOk, RunOk, DoYield;
    YieldStates(s);
  }

  /** The step is a sleep whose deadline is 2^64, cut to 0, while another task has a timer. */
  ghost predicate LosesCache(s: Sched, op: Op)
    requires Sized(s)
  {
    op.Sleep? && s.now + op.ticks == U64 && OthersTimed(s)
  }

  /** Of all steps, that sleep is the one that makes the cached wake tick wrong. */
  lemma CacheStepIff(s: Sched, op: Op)
    requires Inv(s) && WakeOk(s) && Enabled(s, op)
    ensures WakeOk(Apply(s, op)) <==> !LosesCache(s, op)
  {
    hide StackOk, FreedOk, PidOk, SleepOk, MaskOk, RunOk, DoYield, DoTick, SpawnSlot, KillSlot, OthersTimed;
    match op
    case Yield => YieldCaches(s);
    case Tick => TickCaches(s);
    case Sleep(ticks) =>
      if ticks > 0 {
        SleepKeepsCacheIff(s, ticks);
        WrapsToZero(s.now, ticks);
      }
    case _ =>
  }

  lemma WrapsToZero(now: nat, ticks: nat)
    requires now < U64 && 0 < ticks < U64
    ensures (now + ticks) % U64 == 0 <==> now + ticks == U64
  {
  }

  ghost predicate CachedAt(s: Sched, ops: seq<Op>, j: nat)
    requires Sized(s) && j <= |ops|
  {
    WakeOk(Run(s, ops[..j]))
  }

  ghost predicate LosesAt(s: Sched, ops: seq<Op>, j: nat)
    requires Sized(s) && j < |ops|
  {
    LosesCache(Run(s, ops[..j]), ops[j])
  }

  ghost predicate CacheHolds(s: Sched, ops: seq<Op>)
    requires Sized(s)
  {
    forall j :: 0 <= j <= |ops| ==> CachedAt(s, ops, j)
  }

  ghost predicate NeverLoses(s: Sched, ops: seq<Op>)
    requires Sized(s)
  {
    forall j :: 0 <= j < |ops| ==> !LosesAt(s, ops, j)
  }

  lemma SameBefore(s: Sched, ops: seq<Op>, j: nat)
    requires Sized(s) && j < |ops|
    ensures var before := ops[..|ops| - 1];
            && (CachedAt(s, before, j) <==> CachedAt(s, ops, j))
            && (j < |before| ==> (LosesAt(s, before, j) <==> LosesAt(s, ops, j)))
  {
    hide Run, WakeOk, LosesCache;
    assert ops[..|ops| - 1][..j] == ops[..j];
  }

  lemma CacheHoldsMore(s: Sched, ops: seq<Op>)
    requires Sized(s) && ops != []
    ensures var before := ops[..|ops| - 1];
            && (CacheHolds(s, ops) <==> CacheHolds(s, before) && WakeOk(Run(s, ops)))
            && (NeverLoses(s, ops) <==> NeverLoses(s, before) && !LosesCache(Run(s, before), ops[|ops| - 1]))
  {
    hide CachedAt, LosesAt, Run, WakeOk, LosesCache;
    var before := ops[..|ops| - 1];
    forall j | 0 <= j <= |before|
      ensures CachedAt(s, before, j) <==> CachedAt(s, ops, j)
      ensures j < |before| ==> (LosesAt(s, before, j) <==> LosesAt(s, ops, j))
    {
      SameBefore(s, ops, j);
    }
    LastAt(s, ops);
  }

  lemma LastAt(s: Sched, ops: seq<Op>)
    requires Sized(s) && ops != []
    ensures CachedAt(s, ops, |ops|) <==> WakeOk(Run(s, ops))
    ensures LosesAt(s, ops, |ops| - 1) <==> LosesCache(Run(s, ops[..|ops| - 1]), ops[|ops| - 1])
  {
    hide Run, WakeOk, LosesCache;
    assert ops[..|ops|] == ops;
  }

  /** Over every run the cached wake tick is right all along exactly when no step is such a sleep. */
  lemma {:induction false} CacheRunIff(s: Sched, ops: seq<Op>)
    requires Inv(s) && WakeOk(s) && EnabledRun(s, ops)
    ensures CacheHolds(s, ops) <==> NeverLoses(s, ops)
    ensures CacheHolds(s, ops) ==> WakeOk(Run(s, ops))
  {
    hide MaskOk, RunOk, StackOk, FreedOk, PidOk, SleepOk, WakeOk, LosesCache, Enabled, Apply;
    if ops == [] {
      NoSteps(s);
    } else {
      hide CacheHolds, NeverLoses;
      var before := ops[..|ops| - 1];
      CacheRunIff(s, before);
      RunInv(s, before);
      CacheHoldsMore(s, ops);
      if CacheHolds(s, before) {
        CacheStepIff(Run(s, before), ops[|ops| - 1]);
      }
    }
  }

  // ---- a sleeper that is lost ----

  /** Slot `i` is blocked off the processor with its task, and the timer's shortcut looks at nobody. */
  ghost predicate LostAt(s: Sched, t: Sched, i: nat)
    requires Sized(s) && Sized(t) && i < N
  {
    t.nextWake == 0 && t.current != i && t.tasks[i] == s.tasks[i] && s.tasks[i].state == Blocked
  }

  lemma LostStep(s: Sched, t: Sched, op: Op, i: nat)
    requires Sized(s) && Inv(t) && Enabled(t, op) && 0 < i < N && LostAt(s, t, i)
    requires !op.Sleep? && op != Kill(s.tasks[i].pid)
    ensures LostAt(s, Apply(t, op), i)
  {
    hide StackOk, FreedOk, SleepOk, MaskOk, RunOk, DoYield, FullScan, SpawnSlot, KillSlot;
    if op == Yield {
      OnlyReadyRuns(t, Yield);
      YieldTouches(t, i);
      YieldStates(t);
    }
  }

  /** Once the cached tick is 0 no timer wakes a blocked task: it stays blocked over every run until somebody
      sleeps anew or kills it. */
  lemma {:induction false} LostForGood(s: Sched, ops: seq<Op>, i: nat)
    requires Inv(s) && EnabledRun(s, ops) && 0 < i < N && LostAt(s, s, i)
    requires forall j :: 0 <= j < |ops| ==> !ops[j].Sleep? && ops[j] != Kill(s.tasks[i].pid)
    ensures LostAt(s, Run(s, ops), i)
  {
    hide MaskOk, RunOk, StackOk, FreedOk, PidOk, SleepOk, Apply, Enabled, LostAt;
    if ops != [] {
      var before := ops[..|ops| - 1];
      LostForGood(s, before, i);
      RunInv(s, before);
      LostStep(s, Run(s, before), ops[|ops| - 1], i);
    }
  }

  ghost function WrappedSleep(now: nat, ticks: nat): seq<Op>
    requires now < U64
  {
    [Spawn(true)] + [Spawn(true)] + [Yield] + [Sleep(ticks)] + [Yield] + [Sleep(U64 - now)]
  }

  /** A task is lost: two tasks are spawned, the first sleeps for some ticks and the second until 2^64. */
  lemma SleeperLost(now: nat, ticks: nat)
    requires 0 < now && 0 < ticks && now + ticks < U64
    ensures var s, ops := Boot(now, 0), WrappedSleep(now, ticks);
            var t := Run(s, ops);
            && EnabledRun(s, ops) && Inv(t) && !WakeOk(t) && LosesCache(Run(s, ops[..5]), ops[5])
            && LostAt(t, t, 1) && t.tasks[1].wake == now + ticks
  {
    hide Apply, Enabled, Inv, Run, EnabledRun, WakeOk, LosesCache;
    var s := Boot(now, 0);
    var one, two := [Spawn(true)], [Spawn(true)] + [Spawn(true)];
    BootInv(now, 0);
    assert Run(s, []) == s && EnabledRun(s, []) by { NoSteps(s); }
    assert [] + [Spawn(true)] == one;
    RunMore(s, [], Spawn(true));
    SpawnedStep(s, 0);
    RunMore(s, one, Spawn(true));
    SpawnedStep(Run(s, one), 1);
    RunInv(s, two);
    RunMore(s, two, Yield);
    RunMore(s, two + [Yield], Sleep(ticks));
    RunMore(s, two + [Yield] + [Sleep(ticks)], Yield);
    RunMore(s, two + [Yield] + [Sleep(ticks)] + [Yield], Sleep(U64 - now));
    BothSleep(Run(s, two), ticks);
    var ops := WrappedSleep(now, ticks);
    assert ops[..5] == two + [Yield] + [Sleep(ticks)] + [Yield] && ops[5] == Sleep(U64 - now);
    RunInv(s, ops);
  }

  lemma BothSleep(s: Sched, ticks: nat)
    requires Inv(s) && Spawned(s, 2) && 0 < s.now && 0 < ticks && s.now + ticks < U64
    ensures var a := Apply(s, Yield);
            var b := Apply(a, Sleep(ticks));
            var c := Apply(b, Yield);
            var last := Sleep(U64 - s.now);
            var t := Apply(c, last);
            && Enabled(s, Yield) && Enabled(a, Sleep(ticks)) && Enabled(b, Yield) && Enabled(c, last)
            && LosesCache(c, last) && !WakeOk(t) && LostAt(t, t, 1) && t.tasks[1].wake == s.now + ticks
  {
    hide MaskOk, RunOk, StackOk, FreedOk, PidOk, SleepOk, DoYield;
    FirstTurn(s, 1);
    var b := DoSleep(DoYield(s), ticks);
    StepInv(s, Yield);
    StepInv(DoYield(s), Sleep(ticks));
    FirstTurn(b, 2);
    var c := DoYield(b);
    assert c.tasks[1].state == Blocked && c.tasks[1].wake == s.now + ticks;
    assert DoSleep(c, U64 - s.now).tasks[1] == c.tasks[1];
  }

  /** Without GUI load a yield goes to the next slot if that is READY, and touches no other but the one it leaves. */
  lemma FirstTurn(s: Sched, k: nat)
    requires Inv(s) && s.bias == 0 && s.current + 1 == k < N && s.tasks[k].state == Ready
    ensures var t := DoYield(s);
            && t.current == k && t.tasks[k] == s.tasks[k].(state := Running)
            && (forall i: nat :: i < N && i != k && i != s.current ==> t.tasks[i] == s.tasks[i])
            && (s.tasks[s.current].state == Blocked ==> t.tasks[s.current] == s.tasks[s.current])
            && t.now == s.now && t.bias == s.bias && t.deadline == s.deadline && t.nextWake == s.nextWake
  {
    hide StackOk, FreedOk, PidOk, SleepOk;
    assert k in s.mask;
  }
}
