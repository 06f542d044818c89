/**
 The scheduler's own code (kernel/sched.c): the task table, the ready mask and the cached
 wake tick, changed in place.  Each method is proved to take the step of the state machine.
 */
module Scheduler {
  import opened SchedModel
  import opened SchedRuns

  class Scheduler {
    var tasks: seq<Task>
    var current: nat
    var readyMask: Mask
    var nextSleeperWake: nat
    var nextPid: nat
    var ticks: nat
    var guiBias: nat
    var needResched: bool
    var ctxSwitches: nat
    var starvationEvents: nat
    var starvationSlot: seq<nat>
    var nextStack: nat
    var stacksFreed: nat
    ghost var freed: seq<nat>
    ghost var deadline: seq<nat>

    ghost function V(): Sched
      reads this
    {
      Sched(tasks, current, readyMask, nextSleeperWake, nextPid, ticks, guiBias, nextStack, freed, deadline)
    }

    ghost predicate Valid()
      reads this
    {
      Inv(V()) && |starvationSlot| == N && stacksFreed == |freed|
    }

    /** sched_init */
    constructor (now: nat)
      requires now < U64
      ensures Valid() && V() == Boot(now, 0) && WakeOk(V())
    {
      tasks := seq(N, i => if i == 0 then Task(1, Running, 0, 0) else BLANK);
      current := 0;
      readyMask := {};
      nextSleeperWake, nextPid, ticks, guiBias := 0, 2, now, 0;
      needResched, ctxSwitches, starvationEvents := false, 0, 0;
      starvationSlot := seq(N, _ => 0);
      nextStack, stacksFreed, freed, deadline := 1, 0, [], seq(N, _ => 0);
      new;
      BootInv(now, 0);
    }

    /** sched_spawn_kthread; `stackOk` is whether the heap has room for a stack. */
    method Spawn(stackOk: bool) returns (pid: int)
      requires Valid() && Enabled(V(), Op.Spawn(stackOk))
      modifies this
      ensures Valid() && V() == Apply(old(V()), Op.Spawn(stackOk))
      ensures pid == -1 <==> !stackOk || forall k :: 0 <= k < N ==> Alive(old(tasks)[k])
      ensures pid != -1 ==> pid == old(nextPid) && nextPid == pid + 1 && exists i: nat :: Filled(old(V()), V(), i)
    {
      hide MaskOk, RunOk, FreedOk, PidOk, StackOk, SleepOk, SpawnSlot, SpawnAt, Filled;
      SpawnFills(V(), stackOk);
      SpawnInv(V(), stackOk);
      var i := FindSlot();
      if i == N {
        return -1;
      }
      pid := nextPid;
      FillSlot(i, stackOk);
      if !stackOk {
        return -1;
      }
    }

    /** The rest of sched_spawn_kthread: reap the slot's old task and put the new one in. */
    method FillSlot(i: nat, stackOk: bool)
      requires Sized(V()) && i < N && stacksFreed == |freed|
      modifies `tasks, `readyMask, `nextPid, `nextStack, `stacksFreed, `freed, `deadline
      ensures V() == SpawnAt(old(V()), i, stackOk) && stacksFreed == |freed|
    {
      if tasks[i].state == Zombie && tasks[i].stack != 0 {
        freed := freed + [tasks[i].stack];
        stacksFreed := stacksFreed + 1;
      }
      var pid := nextPid;
      nextPid := nextPid + 1;
      deadline := deadline[i := 0];
      if !stackOk {
        tasks := tasks[i := Task(pid, Unused, 0, 0)];
        return;
      }
      tasks := tasks[i := Task(pid, Ready, nextStack, 0)];
      nextStack := nextStack + 1;
      readyMask := readyMask + {i};
    }

    /** The slot search of sched_spawn_kthread. */
    method FindSlot() returns (i: nat)
      requires |tasks| == N
      ensures i == SpawnSlot(tasks, 0)
    {
      i := 0;
      while i < N && tasks[i].state != Unused && tasks[i].state != Zombie
        invariant 0 <= i <= N && SpawnSlot(tasks, 0) == SpawnSlot(tasks, i)
      {
        i := i + 1;
      }
    }

    /** pick_next: reads the table, counting each time GUI bias jumps the queue. */
    method Pick() returns (i: nat)
      requires Sized(V()) && |starvationSlot| == N
      modifies `starvationEvents, `starvationSlot
      ensures i == PickNext(V()) && |starvationSlot| == N
    {
      if readyMask == {} {
        if tasks[current].state == Running {
          return current;
        }
        if tasks[0].state == Ready || tasks[0].state == Running {
          return 0;
        }
        return current;
      }
      if guiBias > 0 && tasks[current].pid > 0 {
        SomeReady(readyMask);
        i := FirstReady(readyMask, 0);
        if i > 0 && tasks[i].pid > 0 && tasks[i].state == Ready && i != current {
          starvationEvents := starvationEvents + 1;
          starvationSlot := starvationSlot[current := starvationSlot[current] + 1];
          return;
        }
      }
      var start := current + 1;
      if start >= N {
        start := 0;
      }
      i := FirstReady(readyMask, start);
      if i == N {
        SomeReady(readyMask);
        i := FirstReady(readyMask, 0);
      }
    }

    /** sched_note_gui_load */
    method NoteGuiLoad(weight: nat)
      requires Valid()
      modifies `guiBias
      ensures Valid() && V() == Apply(old(V()), Op.GuiLoad(weight))
    {
      hide MaskOk, RunOk, StackOk, FreedOk, PidOk, SleepOk;
      LoadInv(V(), weight);
      guiBias := weight;
    }

    /** sched_yield */
    method Yield()
      requires Valid()
      modifies this
      ensures Valid() && V() == Apply(old(V()), Op.Yield) && HandsOver(old(V()), V())
    {
      hide MaskOk, RunOk, StackOk, FreedOk, PidOk, SleepOk, PickNext, HandsOver;
      YieldInv(V());
      YieldHandsOver(V());
      var prev := current;
      if tasks[prev].state == Running {
        tasks := tasks[prev := tasks[prev].(state := Ready)];
        readyMask := readyMask + {prev};
      }
      var next := Pick();
      if next == prev {
        if tasks[prev].state == Ready {
          tasks := tasks[prev := tasks[prev].(state := Running)];
        }
        readyMask := readyMask - {prev};
        if (tasks[prev].state == Blocked || tasks[prev].state == Zombie) && tasks[0].state != Unused && prev != 0 {
          Switch(0);
        }
        return;
      }
      Switch(next);
    }

    method Switch(next: nat)
      requires Sized(V()) && next < N
      modifies `current, `tasks, `readyMask, `ctxSwitches
      ensures V() == SwitchTo(old(V()), next)
    {
      current := next;
      tasks := tasks[next := tasks[next].(state := Running)];
      readyMask := readyMask - {next};
      ctxSwitches := ctxSwitches + 1;
    }

    /** The table update of sched_exit, which then yields for ever. */
    method Exit()
      requires Valid() && Enabled(V(), Op.Exit)
      modifies `tasks, `readyMask
      ensures Valid() && V() == Apply(old(V()), Op.Exit)
      ensures tasks == old(tasks)[current := old(tasks)[current].(state := Zombie)]
      ensures readyMask == old(readyMask) - {current}
    {
      ExitInv(V());
      readyMask := readyMask - {current};
      tasks := tasks[current := tasks[current].(state := Zombie)];
    }

    /** sched_kill */
    method Kill(pid: int) returns (r: int)
      requires Valid() && Enabled(V(), Op.Kill(pid))
      modifies `tasks, `readyMask
      ensures Valid() && V() == Apply(old(V()), Op.Kill(pid))
      ensures r == 0 <==> Killable(old(tasks), current, pid)
      ensures r == 0 ==> Slain(old(tasks), old(readyMask), tasks, readyMask, pid)
      ensures r == -2 <==> pid > 0 && (old(tasks)[current].pid == pid || old(tasks)[0].pid == pid)
      ensures r == 0 || ((r == -1 || r == -2) && tasks == old(tasks) && readyMask == old(readyMask))
    {
      hide MaskOk, RunOk, StackOk, FreedOk, PidOk, SleepOk, KillSlot, Killable, Slain;
      KillInv(V(), pid);
      KillableIff(V(), pid);
      KillExact(V(), pid);
      if pid <= 0 {
        return -1;
      }
      if tasks[current].pid == pid || tasks[0].pid == pid {
        return -2;
      }
      var i := FindPid(pid);
      if i == N {
        return -1;
      }
      readyMask := readyMask - {i};
      tasks := tasks[i := tasks[i].(state := Zombie)];
      r := 0;
    }

    /** The slot search of sched_kill. */
    method FindPid(pid: int) returns (i: nat)
      requires |tasks| == N
      ensures i == KillSlot(tasks, pid, 1)
    {
      i := 1;
      while i < N && !(tasks[i].state != Unused && tasks[i].state != Zombie && tasks[i].pid == pid)
        invariant 1 <= i <= N && KillSlot(tasks, pid, 1) == KillSlot(tasks, pid, i)
      {
        i := i + 1;
      }
    }

    /** sched_wake_sleepers */
    method WakeSleepers()
      requires Sized(V())
      modifies `tasks, `readyMask, `nextSleeperWake
      ensures V() == if FastPath(old(V())) then old(V()) else FullScan(old(V()))
    {
      hide FullScan;
      if nextSleeperWake == 0 || ticks < nextSleeperWake {
        return;
      }
      ScanAll();
    }

    /** The loop of sched_wake_sleepers. */
    method ScanAll()
      requires Sized(V())
      modifies `tasks, `readyMask, `nextSleeperWake
      ensures V() == FullScan(old(V()))
    {
      hide ScanAt, Earliest, WokenAll, DueSet, Woken, Due;
      ghost var before := tasks;
      var next := 0;
      var i := 0;
      ScanStart(before, readyMask, ticks);
      while i < N
        invariant 0 <= i <= N && |tasks| == N && ScanAt(before, tasks, old(readyMask), readyMask, next, ticks, i)
      {
        ScanStep(before, tasks, old(readyMask), readyMask, next, ticks, i);
        if tasks[i].state == Blocked && tasks[i].wake != 0 {
          if ticks >= tasks[i].wake {
            tasks := tasks[i := tasks[i].(wake := 0, state := Ready)];
            readyMask := readyMask + {i};
          } else if next == 0 || tasks[i].wake < next {
            next := tasks[i].wake;
          }
        }
        i := i + 1;
      }
      nextSleeperWake := next;
      ScanDone(before, tasks, old(readyMask), readyMask, next, ticks);
    }

    /** sched_sleep_ticks up to its first yield: for any number of ticks. */
    method SleepTicks(t: nat)
      requires Valid() && Enabled(V(), Op.Sleep(t))
      modifies `tasks, `readyMask, `nextSleeperWake, `deadline
      ensures Valid() && V() == Apply(old(V()), Op.Sleep(t))
      ensures old(WakeOk(V())) ==> (WakeOk(V()) <==> !LosesCache(old(V()), Op.Sleep(t)))
      ensures t == 0 ==> tasks == old(tasks) && readyMask == old(readyMask) && nextSleeperWake == old(nextSleeperWake)
      ensures t > 0 ==> tasks == old(tasks)[current := Task(old(tasks)[current].pid, Blocked, old(tasks)[current].stack,
                                              (ticks + t) % U64)] && readyMask == old(readyMask) - {current}
    {
      hide MaskOk, RunOk, StackOk, FreedOk, PidOk, SleepOk, WakeOk, LosesCache;
      SleepInv(V(), t);
      if WakeOk(V()) {
        CacheStepIff(V(), Op.Sleep(t));
      }
      if t == 0 {
        return;
      }
      readyMask := readyMask - {current};
      var wake := (ticks + t) % U64;
      if nextSleeperWake == 0 || wake < nextSleeperWake {
        nextSleeperWake := wake;
      }
      tasks := tasks[current := tasks[current].(wake := wake, state := Blocked)];
      deadline := deadline[current := ticks + t];
    }

    /** The end of sched_sleep_ticks, once its polling loop is done. */
    method FinishSleep()
      requires Valid() && Enabled(V(), Op.SleepReturn)
      modifies `tasks, `deadline
      ensures Valid() && V() == Apply(old(V()), Op.SleepReturn)
      ensures tasks == old(tasks)[current := old(tasks)[current].(wake := 0)]
      ensures old(deadline)[current] < U64 ==> ticks >= old(deadline)[current]
    {
      hide MaskOk, RunOk, StackOk, FreedOk, PidOk, SleepOk;
      SleepReturnsOnTime(V());
      SleepReturnInv(V());
      tasks := tasks[current := tasks[current].(wake := 0)];
      deadline := deadline[current := 0];
    }

    /** A timer interrupt: the clock, then sched_on_timer. */
    method OnTimer()
      requires Valid() && ticks + 1 < U64
      modifies `tasks, `readyMask, `nextSleeperWake, `ticks, `needResched
      ensures Valid() && V() == Apply(old(V()), Op.Tick) && ticks == old(ticks) + 1
      ensures old(WakeOk(V())) ==> Awakened(old(tasks), old(readyMask), tasks, readyMask, ticks)
      ensures old(WakeOk(V())) ==> WakeOk(V()) && forall i: nat :: i < N ==> !Due(tasks[i], ticks)
      ensures needResched == (old(needResched) || readyMask - {current} != {})
    {
      hide MaskOk, RunOk, StackOk, FreedOk, PidOk, SleepOk, WakeOk, FullScan, Due, Awakened;
      TickInv(V());
      if WakeOk(V()) {
        TickCaches(V());
        TickAwakens(V());
        forall i: nat | i < N ensures !Due(DoTick(V()).tasks[i], DoTick(V()).now) {
          TickWakesAllDue(V(), i);
        }
      }
      ticks := ticks + 1;
      WakeSleepers();
      var others := readyMask - {current};
      if others != {} {
        needResched := true;
      }
    }
  }

  /** The scan of sched_wake_sleepers after `i` slots. */
  ghost predicate ScanAt(before: seq<Task>, tasks: seq<Task>, mask0: Mask, mask: Mask, next: nat, now: nat, i: nat) {
    && |before| == |tasks| == N && i <= N
    && (forall k: nat :: k < N ==> tasks[k] == if k < i then Woken(before[k], now) else before[k])
    && (forall k: nat :: k in mask <==> k in mask0 || (k < i && Due(before[k], now)))
    && next == Earliest(before, now, i)
  }

  lemma ScanStart(before: seq<Task>, mask: Mask, now: nat)
    requires |before| == N
    ensures ScanAt(before, before, mask, mask, 0, now, 0)
  {
  }

  /** What the three branches of the loop body do to the scan. */
  lemma ScanStep(before: seq<Task>, tasks: seq<Task>, mask0: Mask, mask: Mask, next: nat, now: nat, i: nat)
    requires ScanAt(before, tasks, mask0, mask, next, now, i) && i < N
    ensures var t := tasks[i];
            if t.state == Blocked && t.wake != 0 then
              if now >= t.wake then ScanAt(before, tasks[i := t.(wake := 0, state := Ready)], mask0, mask + {i},
                  next, now, i + 1)
              else ScanAt(before, tasks, mask0, mask, if next == 0 || t.wake < next then t.wake else next, now, i + 1)
            else ScanAt(before, tasks, mask0, mask, next, now, i + 1)
  {
  }

  lemma ScanDone(before: seq<Task>, tasks: seq<Task>, mask0: Mask, mask: Mask, next: nat, now: nat)
    requires ScanAt(before, tasks, mask0, mask, next, now, N)
    ensures tasks == WokenAll(before, now) && mask == mask0 + DueSet(before, now) && next == Earliest(before, now, N)
  {
  }
}
