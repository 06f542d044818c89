/**
 What the scheduler's calls (kernel/sched.c) do, said of the task table, and what follows over every run: a pid
 that was killed or has exited never runs again.
 */
module SchedRuns {
  import opened SchedModel

  predicate Alive(t: Task) {
    t.state != Unused && t.state != Zombie
  }

  // ---- sched_kill ----

  /** A live task has that pid, and it is neither the current task's nor slot 0's. */
  predicate Killable(tasks: seq<Task>, current: nat, pid: int)
    requires |tasks| == N && current < N
  {
    && pid > 0 && tasks[current].pid != pid && tasks[0].pid != pid
    && exists k :: 0 < k < N && Alive(tasks[k]) && tasks[k].pid == pid
  }

  /** Exactly the live task of that pid becomes a zombie and loses its ready bit. */
  ghost predicate Slain(before: seq<Task>, mask: Mask, after: seq<Task>, mask': Mask, pid: int) {
    && |before| == |after| == N
    && (forall k :: 0 <= k < N ==>
          after[k] == if Alive(before[k]) && before[k].pid == pid then before[k].(state := Zombie) else before[k])
    && forall k: nat :: k < N ==> (k in mask' <==> k in mask && before[k].pid != pid)
  }

  lemma KillableIff(s: Sched, pid: int)
    requires Sized(s)
    ensures Killable(s.tasks, s.current, pid) <==> !KillRefused(s, pid) && KillSlot(s.tasks, pid, 1) < N
  {
    KillSlotFirst(s.tasks, pid, 1);
    hide KillSlot;
    var i := KillSlot(s.tasks, pid, 1);
    if i < N {
      assert Alive(s.tasks[i]);
    }
  }

  /** A kill that can be carried out kills that task and does nothing else; any other does nothing. */
  lemma KillExact(s: Sched, pid: int)
    requires Sized(s) && PidOk(s) && MaskOk(s)
    ensures Killable(s.tasks, s.current, pid) ==>
      var t := Apply(s, Kill(pid));
      t == s.(tasks := t.tasks, mask := t.mask) && Slain(s.tasks, s.mask, t.tasks, t.mask, pid)
    ensures !Killable(s.tasks, s.current, pid) ==> Apply(s, Kill(pid)) == s
  {
    hide KillSlot, Killable, PidOk, MaskOk, Slain;
    KillableIff(s, pid);
    if Killable(s.tasks, s.current, pid) {
      KillSlays(s, pid, KillSlot(s.tasks, pid, 1));
    }
  }

  lemma KillSlays(s: Sched, pid: int, i: nat)
    requires Sized(s) && PidOk(s) && MaskOk(s) && i < N && Alive(s.tasks[i]) && s.tasks[i].pid == pid
    ensures Slain(s.tasks, s.mask, s.tasks[i := s.tasks[i].(state := Zombie)], s.mask - {i}, pid)
  {
  }

  lemma {:induction false} KillSlotFirst(tasks: seq<Task>, pid: int, from: nat)
    requires |tasks| == N && from <= N
    ensures forall k :: from <= k < KillSlot(tasks, pid, from) ==> !(Alive(tasks[k]) && tasks[k].pid == pid)
    decreases N - from
  {
    if KillSlot(tasks, pid, from) != from {
      KillSlotFirst(tasks, pid, from + 1);
    }
  }

  // ---- the dead stay dead ----

  /** Every task that has this pid, an old one, is a zombie off the processor. */
  ghost predicate Dead(s: Sched, pid: int)
    requires Sized(s)
  {
    && pid < s.nextPid
    && forall i: nat :: i < N && s.tasks[i].state != Unused && s.tasks[i].pid == pid ==>
         s.tasks[i].state == Zombie && i != s.current
  }

  /** A step other than a spawn gives no slot a new task. */
  lemma UnusedStays(s: Sched, op: Op, i: nat)
    requires Sized(s) && i < N && op != Yield && s.tasks[i].state == Unused && i != s.current
    ensures var t := Apply(s, op); t.tasks[i].state == Unused || t.tasks[i].pid == s.nextPid
  {
    hide SpawnSlot, KillSlot, Earliest, DueSet, DoYield;
  }

  lemma DeadStep(s: Sched, op: Op, pid: int)
    requires Inv(s) && Enabled(s, op) && Dead(s, pid)
    ensures Dead(Apply(s, op), pid)
  {
    if op == Yield {
      DeadYield(s, pid);
    } else {
      hide StackOk, FreedOk, PidOk, SleepOk, MaskOk, Enabled, Apply;
      var t := Apply(s, op);
      OthersTouch(s, op, 0);
      forall i: nat | i < N && t.tasks[i].state != Unused && t.tasks[i].pid == pid
        ensures t.tasks[i].state == Zombie && i != t.current
      {
        OthersTouch(s, op, i);
        if s.tasks[i].state == Unused {
          UnusedStays(s, op, i);
        }
      }
    }
  }

  lemma DeadYield(s: Sched, pid: int)
    requires Inv(s) && Dead(s, pid)
    ensures Dead(DoYield(s), pid)
  {
    hide StackOk, FreedOk, PidOk, SleepOk, MaskOk, DoYield;
    var t := DoYield(s);
    YieldStates(s);
    OnlyReadyRuns(s, Yield);
    forall i: nat | i < N && t.tasks[i].state != Unused && t.tasks[i].pid == pid
      ensures t.tasks[i].state == Zombie && i != t.current
    {
      assert s.tasks[i].state == Zombie && i != s.current;
      if i != t.current {
        YieldTouches(s, i);
      }
    }
  }

  lemma {:induction false} DeadRun(s: Sched, ops: seq<Op>, pid: int)
    requires Inv(s) && EnabledRun(s, ops) && Dead(s, pid)
    ensures Dead(Run(s, ops), pid) && Run(s, ops).tasks[Run(s, ops).current].pid != pid
  {
    hide MaskOk, StackOk, FreedOk, PidOk, SleepOk, Apply, Enabled;
    RunInv(s, ops);
    if ops != [] {
      var before := ops[..|ops| - 1];
      DeadRun(s, before, pid);
      RunInv(s, before);
      DeadStep(Run(s, before), ops[|ops| - 1], pid);
    }
  }

  /** After a kill that was carried out, no later state has a current task with that pid. */
  lemma KilledNeverRuns(s: Sched, pid: int, ops: seq<Op>)
    requires Inv(s) && Enabled(s, Kill(pid)) && Killable(s.tasks, s.current, pid)
    requires EnabledRun(Apply(s, Kill(pid)), ops)
    ensures var t := Run(Apply(s, Kill(pid)), ops); t.tasks[t.current].pid != pid
  {
    hide StackOk, FreedOk, SleepOk, Enabled, Run, EnabledRun, Apply;
    var t := Apply(s, Kill(pid));
    StepInv(s, Kill(pid));
    KillExact(s, pid);
    DeadRun(t, ops, pid);
  }

  /** After an exit and the yield that follows it, no later state has a current task with that pid. */
  lemma ExitedNeverRuns(s: Sched, ops: seq<Op>)
    requires Inv(s) && Enabled(s, Exit) && EnabledRun(Apply(Apply(s, Exit), Yield), ops)
    ensures var t := Run(Apply(Apply(s, Exit), Yield), ops); t.tasks[t.current].pid != s.tasks[s.current].pid
  {
    hide StackOk, FreedOk, SleepOk, Enabled, Run, EnabledRun, MaskOk, RunOk, PidOk, DoYield, DoExit, Dead;
    var t := Apply(s, Exit);
    StepInv(s, Exit);
    StepInv(t, Yield) by { YieldEnabled(t); }
    assert s.current != 0 by { ExitNotIdle(s); }
    ExitLeaves(s);
    DeadRun(Apply(t, Yield), ops, s.tasks[s.current].pid);
  }

  lemma ExitNotIdle(s: Sched)
    requires Sized(s) && Enabled(s, Exit)
    ensures s.current != 0
  {
  }

  lemma YieldEnabled(s: Sched)
    requires Sized(s)
    ensures Enabled(s, Yield)
  {
  }

  lemma ExitLeaves(s: Sched)
    requires Inv(s) && s.current != 0
    ensures Dead(DoYield(DoExit(s)), s.tasks[s.current].pid)
  {
    hide StackOk, FreedOk, SleepOk, RoundRobin, FirstReady;
  }

  // ---- sched_yield ----

  /** The task a yield turns to when another one is READY: the lowest such slot if it is favoured, otherwise the one
      that comes first when counting up from the current slot, slot 0 following the last. */
  predicate Chosen(s: Sched, next: nat)
    requires Sized(s)
  {
    && next < N && next != s.current && s.tasks[next].state == Ready
    && if Fair(s) || (Live(s, s.current) && LowestAlive(s, s.current))
       then forall k :: 0 <= k < N && k != s.current && s.tasks[k].state == Ready ==>
              Turns(s.current, next) <= Turns(s.current, k)
       else forall k :: 0 <= k < N && s.tasks[k].state == Ready ==> next <= k
  }

  predicate LowestAlive(s: Sched, i: nat)
    requires Sized(s)
  {
    forall k :: 0 <= k < N && s.tasks[k].state == Ready ==> i <= k
  }

  lemma RoundRobinMeans(mask: Mask, current: nat, k: nat)
    requires current < N && mask != {} && k in mask
    ensures Turns(current, RoundRobin(mask, current)) <= Turns(current, k)
  {
    hide FirstReady;
    SomeReady(mask);
  }

  lemma YieldChooses(s: Sched)
    requires Inv(s) && OtherReady(s)
    ensures Chosen(s, DoYield(s).current)
  {
    hide StackOk, FreedOk, SleepOk, RunOk, PidOk, FirstReady, RoundRobin, Turns, Chosen;
    var p := s.current;
    var a := if s.tasks[p].state == Running then SetState(s, p, Ready).(mask := s.mask + {p}) else s;
    PickChosen(s, a);
  }

  lemma PickChosen(s: Sched, a: Sched)
    requires Inv(s) && OtherReady(s)
    requires a == if s.tasks[s.current].state == Running
                  then SetState(s, s.current, Ready).(mask := s.mask + {s.current})
                  else s
    ensures Chosen(s, PickNext(a))
  {
    hide StackOk, FreedOk, SleepOk, MaskOk, RunOk, PidOk, FirstReady, RoundRobin, Turns;
    forall k: nat | k < N ensures k in a.mask <==> Live(s, k) {
      YieldMaskLive(s, k);
    }
    var k :| 0 <= k < N && k != s.current && s.tasks[k].state == Ready;
    assert Live(s, k);
    SomeReady(a.mask);
    var low := FirstReady(a.mask, 0);
    LivePids(s, low);
    var next := RoundRobin(a.mask, s.current);
    forall j | 0 <= j < N && Live(s, j) ensures Turns(s.current, next) <= Turns(s.current, j) {
      RoundRobinMeans(a.mask, s.current, j);
    }
    NotBack(s.current, next, k);
    LivePids(s, next);
    forall j | 0 <= j < N && s.tasks[j].state == Ready
      ensures low <= j && Turns(s.current, next) <= Turns(s.current, j)
    {
      assert Live(s, j) && j in a.mask;
    }
    assert Live(s, 0) <==> low == 0;
    assert a.tasks[low].pid == s.tasks[low].pid && (low != s.current ==> a.tasks[low] == s.tasks[low]);
  }

  lemma LivePids(s: Sched, i: nat)
    requires Inv(s) && i < N && Live(s, i)
    ensures s.tasks[i].pid > 0 && s.tasks[s.current].pid > 0 && (i != s.current ==> s.tasks[i].state == Ready)
  {
    hide StackOk, FreedOk, SleepOk, MaskOk;
  }

  /** The old and the new current task change hands; nothing else changes.  With no other task READY the current one
      goes on, unless it is blocked or a zombie, when slot 0 takes over. */
  ghost predicate HandsOver(s: Sched, t: Sched)
    requires Sized(s) && Sized(t)
  {
    var p, q := s.current, t.current;
    && t == s.(tasks := t.tasks, mask := t.mask, current := q)
    && (forall k :: 0 <= k < N && k != p && k != q ==> t.tasks[k] == s.tasks[k])
    && (p != q ==> t.tasks[q] == s.tasks[q].(state := Running))
    && (p != q ==> t.tasks[p] == if s.tasks[p].state == Running then s.tasks[p].(state := Ready) else s.tasks[p])
    && (p == q ==> t.tasks[p] == if Live(s, p) then s.tasks[p].(state := Running) else s.tasks[p])
    && if OtherReady(s) then Chosen(s, q) else q == if Live(s, p) then p else 0
  }

  predicate OtherReady(s: Sched)
    requires Sized(s)
  {
    exists k :: 0 <= k < N && k != s.current && s.tasks[k].state == Ready
  }

  lemma YieldHandsOver(s: Sched)
    requires Inv(s)
    ensures HandsOver(s, DoYield(s))
  {
    hide StackOk, FreedOk, SleepOk, PidOk, PickNext, Chosen, FirstReady, RoundRobin;
    if OtherReady(s) {
      YieldChooses(s);
    } else {
      YieldAlone(s);
    }
    var p := s.current;
    PickIs(if s.tasks[p].state == Running then SetState(s, p, Ready).(mask := s.mask + {p}) else s);
  }

  lemma YieldAlone(s: Sched)
    requires Inv(s) && !OtherReady(s)
    ensures DoYield(s).current == if Live(s, s.current) then s.current else 0
  {
    hide StackOk, FreedOk, SleepOk, PidOk, FirstReady, RoundRobin, Favoured;
  }

  /** The current slot comes last. */
  lemma NotBack(current: nat, next: nat, k: nat)
    requires current < N && next < N && k < N && k != current && Turns(current, next) <= Turns(current, k)
    ensures next != current
  {
  }

  // ---- sched_spawn_kthread ----

  /** Slot `i`, the first without a live task, has a new READY task with the next pid and a stack of its own; the
      stack it had before is given back, and nothing else changes. */
  ghost predicate Filled(s: Sched, t: Sched, i: nat) {
    && Sized(s) && i < N && !Alive(s.tasks[i]) && (forall k :: 0 <= k < i ==> Alive(s.tasks[k]))
    && t == Sched(s.tasks[i := Task(s.nextPid, Ready, s.nextStack, 0)], s.current, s.mask + {i}, s.nextWake,
                  s.nextPid + 1, s.now, s.bias, s.nextStack + 1,
                  if s.tasks[i].stack == 0 then s.freed else s.freed + [s.tasks[i].stack], s.deadline[i := 0])
  }

  lemma SpawnFills(s: Sched, stackOk: bool)
    requires Inv(s)
    ensures SpawnSlot(s.tasks, 0) == N <==> forall k :: 0 <= k < N ==> Alive(s.tasks[k])
    ensures stackOk && SpawnSlot(s.tasks, 0) < N ==>
      Filled(s, Apply(s, Spawn(stackOk)), SpawnSlot(s.tasks, 0)) && Apply(s, Spawn(stackOk)).nextPid == s.nextPid + 1
  {
    hide MaskOk, FreedOk, PidOk, SleepOk, SpawnSlot;
    var i := SpawnSlot(s.tasks, 0);
    assert forall k :: 0 <= k < i ==> Alive(s.tasks[k]);
    assert i < N ==> i != 0 && !Alive(s.tasks[i]);
  }

  // ---- sched_wake_sleepers ----

  /** Exactly the blocked tasks whose timer has come are READY now, their timers cleared. */
  ghost predicate Awakened(before: seq<Task>, mask: Mask, after: seq<Task>, mask': Mask, now: nat) {
    && |before| == |after| == N
    && (forall k :: 0 <= k < N ==>
          after[k] == if before[k].state == Blocked && 0 < before[k].wake <= now then
                        before[k].(wake := 0, state := Ready)
                      else before[k])
    && forall k: nat :: k < N ==>
         (k in mask' <==> k in mask || (before[k].state == Blocked && 0 < before[k].wake <= now))
  }

  lemma TickAwakens(s: Sched)
    requires Sized(s) && WakeOk(s)
    ensures var t := Apply(s, Tick);
            && Awakened(s.tasks, s.mask, t.tasks, t.mask, s.now + 1)
            && t == s.(tasks := t.tasks, mask := t.mask, now := s.now + 1, nextWake := t.nextWake)
  {
    hide Earliest;
  }
}
