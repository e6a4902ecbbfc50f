/** The scheduler and the thread calls as they run: the state of SchedulerSpec, updated in place. */
module SchedulerObject {
  import opened Options
  import opened IpcList
  import opened Bits
  import opened ReadyBitmap
  import opened SchedulerSpec

  class RtScheduler {
    const max: nat                         // RT_THREAD_PRIORITY_MAX
    var thr: map<Tid, Tcb>
    const ready: array<seq<Tid>>           // rt_thread_priority_table
    var group: nat                         // rt_thread_ready_priority_group
    const table: array<nat>                // rt_thread_ready_table
    var current: Option<Tid>
    var lock: int

    ghost function Abs(): Sched
      reads this, ready, table
    {
      Sched(max, thr, ready[..], Bitmap(group, table[..]), current, lock)
    }

    ghost predicate Valid()
      reads this, ready, table
    {
      Good(Abs())
    }

    /** rt_system_scheduler_init, with the threads that rt_thread_init prepared. */
    constructor (max: nat, threads: map<Tid, Tcb>)
      requires 0 < max <= 256
      requires forall t :: t in threads ==>
                 threads[t].stat == Init && threads[t].prio < max && threads[t].initPrio < max
      ensures Valid() && fresh(ready) && fresh(table) && this.max == max && thr == threads
      ensures current == None && lock == 0 && group == 0 && forall p :: 0 <= p < max ==> ready[p] == []
    {
      this.max, thr, group, current, lock := max, threads, 0, None, 0;
      ready := new seq<Tid>[max](_ => []);
      table := new nat[32](_ => 0);
      new;
      assert table[..] == Empty().table;
      EmptySound(max);
      var s := Abs();
      forall t | t in thr ensures Fields(t, thr[t], s) && Placed(t, thr[t], s) {}
    }

    /** rt_schedule_insert_thread. */
    method InsertThread(t: Tid)
      requires t in thr && thr[t].prio < ready.Length && thr[t].number < 32 && table.Length == 32
      modifies this`thr, this`group, ready, table
      ensures Abs() == Insert(old(Abs()), t)
    {
      var b := thr[t];
      if current == Some(t) {
        thr := thr[t := b.(stat := Running)];
        return;
      }
      thr := thr[t := b.(stat := Ready)];
      ready[b.prio] := ready[b.prio] + [t];
      if max > 32 { table[b.number] := SetBit(table[b.number], b.high); }
      group := SetBit(group, b.number);
      assert ready[..] == old(ready[..])[b.prio := old(ready[b.prio]) + [t]];
      assert table[..] == if max > 32 then old(table[..])[b.number := SetBit(old(table[b.number]), b.high)]
             else old(table[..]);
    }

    /** rt_schedule_remove_thread. */
    method RemoveThread(t: Tid)
      requires t in thr && thr[t].prio < ready.Length && thr[t].number < 32 && table.Length == 32
      modifies this`group, ready, table
      ensures Abs() == Remove(old(Abs()), t)
    {
      var b := thr[t];
      ready[b.prio] := Without(ready[b.prio], t);
      assert ready[..] == old(ready[..])[b.prio := Without(old(ready[b.prio]), t)];
      if ready[b.prio] == [] {
        if max > 32 {
          table[b.number] := ClearBit(table[b.number], b.high);
          if table[b.number] == 0 { group := ClearBit(group, b.number); }
          assert table[..] == old(table[..])[b.number := ClearBit(old(table[b.number]), b.high)];
        } else {
          group := ClearBit(group, b.number);
        }
      }
    }

    /** _get_highest_priority_thread. */
    method GetHighestPriorityThread() returns (t: Tid, highest: nat)
      requires Valid() && group != 0
      ensures SmallestOn(Abs().bm, max, highest) && TopOf(Abs(), highest) && ready[highest][0] == t
      ensures Findable(Abs().bm, max) && highest == Highest(Abs().bm, max)
    {
      SearchIs(Abs());
      highest := SearchBitmap();
      t := ready[highest][0];
    }

    /** Its search of the bitmap. */
    method SearchBitmap() returns (highest: nat)
      requires table.Length == 32 && Findable(Bitmap(group, table[..]), max)
      ensures highest == Highest(Bitmap(group, table[..]), max)
    {
      if max > 32 {
        var number := Ffs(group) - 1;
        highest := number * 8 + (Ffs(table[number]) - 1);
      } else {
        highest := Ffs(group) - 1;
      }
    }

    method SetStat(t: Tid, stat: Stat)
      requires t in thr
      modifies this`thr
      ensures Abs() == SchedulerSpec.SetStat(old(Abs()), t, stat)
    {
      thr := thr[t := thr[t].(stat := stat)];
    }

    /** The switch inside rt_schedule. */
    method SwitchTo(to: Tid)
      requires Valid() && current.Some? && to in thr && thr[to].stat == Ready
      modifies this`thr, this`group, this`current, ready, table
      ensures Abs() == SchedulerSpec.SwitchTo(old(Abs()), to)
    {
      var from := current.value;
      assert Fields(from, thr[from], Abs()) && Fields(to, thr[to], Abs());
      var needInsert := thr[from].stat == Running;
      current := Some(to);
      if needInsert { InsertThread(from); }
      RemoveThread(to);
      SetStat(to, Running);
    }

    /** rt_schedule. */
    method Schedule()
      requires Valid() && current.Some?
      modifies this`thr, this`group, this`current, ready, table
      ensures Abs() == SchedulerSpec.Schedule(old(Abs())) && Valid()
    {
      ScheduleKeeps(Abs());
      if lock == 0 && group != 0 {
        var to, highest := GetHighestPriorityThread();
        var cur := current.value;
        assert Fields(cur, thr[cur], Abs());
        if thr[cur].stat == Running && thr[cur].prio < highest {
          RemoveThread(cur);
          SetStat(cur, Running);
        } else {
          SwitchTo(to);
        }
      }
    }

    /** rt_system_scheduler_start. */
    method Start()
      requires Valid() && current.None? && group != 0
      modifies this`thr, this`group, this`current, ready, table
      ensures Abs() == Step(old(Abs()), OpStart) && Valid()
    {
      StartKeeps(Abs());
      var to, _ := GetHighestPriorityThread();
      assert Fields(to, thr[to], Abs());
      current := Some(to);
      RemoveThread(to);
      SetStat(to, Running);
    }

    /** A suspended thread goes to the ready queue. */
    method Wake(t: Tid)
      requires Valid() && t in thr && thr[t].stat == Suspend
      modifies this`thr, this`group, ready, table
      ensures Abs() == Resumed(old(Abs()), t)
    {
      assert Fields(t, thr[t], Abs());
      InsertThread(t);
    }

    /** rt_thread_resume. */
    method ResumeThread(t: Tid) returns (ok: bool)
      requires Valid() && t in thr
      modifies this`thr, this`group, ready, table
      ensures Abs() == Step(old(Abs()), OpResume(t)) && Valid()
      ensures ok == (old(thr[t]).stat == Suspend)
    {
      StepKeepsGood(Abs(), OpResume(t));
      if thr[t].stat != Suspend { return false; }
      Wake(t);
      return true;
    }

    /** rt_thread_startup. */
    method StartThread(t: Tid)
      requires Valid() && t in thr && thr[t].stat == Init
      modifies this`thr, this`group, this`current, ready, table
      ensures Abs() == Step(old(Abs()), OpStartup(t)) && Valid()
    {
      PrepareStart(t);
      if current.Some? { Schedule(); }
    }

    method PrepareStart(t: Tid)
      requires Valid() && t in thr && thr[t].stat == Init
      modifies this`thr, this`group, ready, table
      ensures Abs() == Started(old(Abs()), t)
    {
      ghost var s := Abs();
      assert Fields(t, thr[t], s);
      thr := thr[t := WithPrio(thr[t], thr[t].initPrio, max).(stat := Suspend)];
      assert Abs() == SetTcb(s, t, thr[t]);
      InsertThread(t);
    }

    /** rt_schedule_remove_thread, then a state out of every queue. */
    method Take(t: Tid, stat: Stat)
      requires Valid() && Numbered(Abs(), t) && (stat == Suspend || stat == Close)
      modifies this`thr, this`group, ready, table
      ensures Abs() == Taken(old(Abs()), t, stat)
    {
      assert Fields(t, thr[t], Abs());
      RemoveThread(t);
      SetStat(t, stat);
    }

    /** rt_thread_suspend: a running thread can only be the current one. */
    method SuspendThread(t: Tid) returns (ok: bool)
      requires Valid() && t in thr
      modifies this`thr, this`group, ready, table
      ensures Abs() == Step(old(Abs()), OpSuspend(t)) && Valid()
      ensures ok == (old(thr[t]).stat == Ready || old(thr[t]).stat == Running)
    {
      StepKeepsGood(Abs(), OpSuspend(t));
      if thr[t].stat != Ready && thr[t].stat != Running { return false; }
      assert Placed(t, thr[t], Abs());
      assert thr[t].stat == Running ==> current == Some(t);
      Take(t, Suspend);
      return true;
    }

    /** rt_thread_timeout. */
    method TimeoutThread(t: Tid)
      requires Valid() && t in thr && thr[t].stat == Suspend && current.Some?
      modifies this`thr, this`group, this`current, ready, table
      ensures Abs() == Step(old(Abs()), OpTimeout(t)) && Valid()
    {
      Wake(t);
      Schedule();
    }

    /** rt_thread_control with RT_THREAD_CTRL_CHANGE_PRIORITY. */
    method ChangePriority(t: Tid, p: nat)
      requires Valid() && t in thr && p < max
      modifies this`thr, this`group, ready, table
      ensures Abs() == Reprioritised(old(Abs()), t, p)
    {
      ghost var s := Abs();
      assert Fields(t, thr[t], s);
      if thr[t].stat == Ready {
        RemoveThread(t);
        thr := thr[t := WithPrio(thr[t], p, max)];
        assert Abs() == SetTcb(SchedulerSpec.Remove(s, t), t, thr[t]);
        InsertThread(t);
      } else {
        thr := thr[t := WithPrio(thr[t], p, max)];
      }
    }

    /** rt_thread_exit. */
    method Exit()
      requires Valid() && current.Some?
      modifies this`thr, this`group, this`current, ready, table
      ensures Abs() == Step(old(Abs()), OpExit) && Valid()
    {
      Take(current.value, Close);
      Schedule();
    }

    /** rt_thread_detach. */
    method Detach(t: Tid)
      requires Valid() && t in thr && thr[t].stat != Close
      modifies this`thr, this`group, ready, table
      ensures Abs() == Step(old(Abs()), OpDetach(t)) && Valid()
    {
      StepKeepsGood(Abs(), OpDetach(t));
      if thr[t].stat == Init { SetStat(t, Close); } else { Take(t, Close); }
    }

    /** rt_enter_critical. */
    method EnterCritical()
      requires Valid()
      modifies this`lock
      ensures Abs() == Step(old(Abs()), OpEnterCritical) && Valid()
    {
      StepKeepsGood(Abs(), OpEnterCritical);
      lock := Entered(lock);
    }

    /** rt_exit_critical. */
    method ExitCritical()
      requires Valid()
      modifies this, ready, table
      ensures Abs() == Step(old(Abs()), OpExitCritical) && Valid()
    {
      StepKeepsGood(Abs(), OpExitCritical);
      LockIrrelevant(Abs(), 0);
      ghost var s := Abs();
      lock := Exited(lock);
      if lock == 0 {
        assert Abs() == s.(lock := 0);
        if current.Some? { Schedule(); }
      }
    }
  }
}
