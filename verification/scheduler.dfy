/** The single-core scheduler of scheduler.c and the thread states of thread.c. */
module SchedulerSpec {
  import opened Options
  import opened IpcList
  import opened ReadyBitmap

  datatype Stat = Init | Ready | Suspend | Running | Close

  /** `number` and `high` are the bit positions behind `number_mask` and `high_mask`. */
  datatype Tcb = Tcb(stat: Stat, prio: nat, initPrio: nat, number: nat, high: nat)

  /** The priority table, its bitmap, the running thread and the lock nesting. */
  datatype Sched = Sched(max: nat, thr: map<Tid, Tcb>, ready: seq<seq<Tid>>, bm: Bitmap,
                         current: Option<Tid>, lock: int)

  // -------------------------------------------------------------- invariants

  /** Every queued thread is ready and stands in the queue of its priority. */
  ghost predicate Queues(ready: seq<seq<Tid>>, thr: map<Tid, Tcb>) {
    && (forall p :: 0 <= p < |ready| ==> Distinct(ready[p]))
    && (forall p, t :: 0 <= p < |ready| && t in ready[p] ==> t in thr && thr[t].stat == Ready && thr[t].prio == p)
  }

  /** A ready bit is set exactly when that priority's queue is not empty. */
  ghost predicate Mapped(ready: seq<seq<Tid>>, bm: Bitmap, max: nat) {
    && Sound(bm, max) && |ready| == max
    && forall p :: 0 <= p < max ==> (On(bm, max, p) <==> ready[p] != [])
  }

  /** The priority is in range, and the cached bit positions of a thread that was
      started, and not closed behind the scheduler's back, belong to it. */
  ghost predicate Fields(t: Tid, b: Tcb, s: Sched) {
    && b.prio < s.max && b.initPrio < s.max
    && ((b.stat != Init && b.stat != Close) || s.current == Some(t) ==>
          b.number == Number(b.prio, s.max) && b.high == High(b.prio))
  }

  ghost predicate Numbered(s: Sched, t: Tid) {
    t in s.thr && ((s.thr[t].stat != Init && s.thr[t].stat != Close) || s.current == Some(t))
  }

  ghost predicate Placed(t: Tid, b: Tcb, s: Sched)
    requires b.prio < |s.ready|
  {
    && (b.stat == Ready ==> t in s.ready[b.prio])
    && (b.stat == Running ==> s.current == Some(t))
    && (s.current == Some(t) ==> b.stat != Ready && b.stat != Init)
  }

  /** The invariant, but for the threads `out`, which stand in no queue, and the
      threads `odd`, whose state is about to change. */
  ghost predicate Inv(s: Sched, out: set<Tid>, odd: set<Tid>) {
    && Mapped(s.ready, s.bm, s.max) && Queues(s.ready, s.thr)
    && (s.current.Some? ==> s.current.value in s.thr)
    && (forall t :: t in s.thr ==> Fields(t, s.thr[t], s))
    && (forall t :: t in s.thr && t !in out && t !in odd ==> Placed(t, s.thr[t], s))
    && (forall t, p :: t in out && 0 <= p < s.max ==> t !in s.ready[p])
  }

  ghost predicate Good(s: Sched) {
    Inv(s, {}, {})
  }

  // -------------------------------------------------------------- operations

  function SetStat(s: Sched, t: Tid, stat: Stat): Sched
    requires t in s.thr
  {
    s.(thr := s.thr[t := s.thr[t].(stat := stat)])
  }

  /** rt_schedule_insert_thread. */
  function Insert(s: Sched, t: Tid): Sched
    requires t in s.thr && s.thr[t].prio < |s.ready| && s.thr[t].number < 32 && |s.bm.table| == 32
  {
    if s.current == Some(t) then SetStat(s, t, Running)
    else
      var b := s.thr[t];
      SetStat(s, t, Ready).(ready := s.ready[b.prio := s.ready[b.prio] + [t]],
          bm := Mark(s.bm, s.max, b.number, b.high))
  }

  /** rt_schedule_remove_thread. */
  function Remove(s: Sched, t: Tid): Sched
    requires t in s.thr && s.thr[t].prio < |s.ready| && s.thr[t].number < 32 && |s.bm.table| == 32
  {
    var b := s.thr[t];
    var q := Without(s.ready[b.prio], t);
    s.(ready := s.ready[b.prio := q], bm := if q == [] then Unmark(s.bm, s.max, b.number, b.high) else s.bm)
  }

  lemma InsertQueues(s: Sched, t: Tid, odd: set<Tid>)
    requires Inv(s, {t}, odd) && Numbered(s, t) && s.current != Some(t)
    ensures s.thr[t].number < 32 && Mapped(Insert(s, t).ready, Insert(s, t).bm, s.max)
    ensures Queues(Insert(s, t).ready, Insert(s, t).thr)
  {
    assert Fields(t, s.thr[t], s);
    var p := s.thr[t].prio;
    MarkIs(s.bm, s.max, p);
    DistinctSnoc(s.ready[p], t);
  }

  lemma InsertKeeps(s: Sched, t: Tid, odd: set<Tid>)
    requires Inv(s, {t}, odd) && Numbered(s, t) && t !in odd
    ensures s.thr[t].number < 32 && Inv(Insert(s, t), {}, odd)
    ensures Insert(s, t).thr[t].stat == (if s.current == Some(t) then Running else Ready)
  {
    assert Fields(t, s.thr[t], s);
    if s.current != Some(t) { InsertQueues(s, t, odd); }
    var g := Insert(s, t);
    forall u | u in g.thr ensures Fields(u, g.thr[u], g) { assert Fields(u, s.thr[u], s); }
    forall u | u in g.thr && u !in odd ensures Placed(u, g.thr[u], g) {
      if u != t { assert Placed(u, s.thr[u], s); }
    }
  }

  lemma RemoveQueues(s: Sched, t: Tid, odd: set<Tid>)
    requires Inv(s, {}, odd) && Numbered(s, t)
    ensures s.thr[t].number < 32 && Mapped(Remove(s, t).ready, Remove(s, t).bm, s.max)
    ensures Queues(Remove(s, t).ready, s.thr) && forall p :: 0 <= p < s.max ==> t !in Remove(s, t).ready[p]
    ensures s.thr[t].stat != Ready ==> Remove(s, t).ready == s.ready
  {
    assert Fields(t, s.thr[t], s);
    var p := s.thr[t].prio;
    UnmarkIs(s.bm, s.max, p);
    WithoutMembers(s.ready[p], t);
    if s.thr[t].stat != Ready {
      WithoutAbsent(s.ready[p], t);
      assert s.ready[p := s.ready[p]] == s.ready;
    }
  }

  lemma RemoveKeeps(s: Sched, t: Tid, odd: set<Tid>)
    requires Inv(s, {}, odd) && Numbered(s, t)
    ensures s.thr[t].number < 32 && Inv(Remove(s, t), {t}, odd) && Remove(s, t).thr == s.thr
    ensures s.thr[t].stat != Ready ==> Remove(s, t).ready == s.ready
  {
    RemoveQueues(s, t, odd);
    assert Fields(t, s.thr[t], s);
    WithoutMembers(s.ready[s.thr[t].prio], t);
    var g := Remove(s, t);
    forall u | u in g.thr ensures Fields(u, g.thr[u], g) { assert Fields(u, s.thr[u], s); }
    forall u | u in g.thr && u != t && u !in odd ensures Placed(u, g.thr[u], g) { assert Placed(u, s.thr[u], s); }
  }

  /** A thread out of every queue may take any state that fits it. */
  lemma SetStatKeeps(s: Sched, t: Tid, stat: Stat, odd: set<Tid>)
    requires Inv(s, {t}, odd) && Numbered(s, t) && stat != Ready && stat != Init
    requires stat == Running ==> s.current == Some(t)
    ensures Inv(SetStat(s, t, stat), {}, odd)
  {
    var g := SetStat(s, t, stat);
    assert Fields(t, s.thr[t], s);
    forall u | u in g.thr ensures Fields(u, g.thr[u], g) { assert Fields(u, s.thr[u], s); }
    forall u | u in g.thr && u !in odd ensures Placed(u, g.thr[u], g) {
      if u != t { assert Placed(u, s.thr[u], s); }
    }
  }

  // -------------------------------------------------------------- rt_schedule

  /** Hand the processor to the ready thread `to`. */
  ghost function SwitchTo(s: Sched, to: Tid): Sched
    requires Good(s) && s.current.Some? && to in s.thr && s.thr[to].stat == Ready
  {
    var from := s.current.value;
    assert Fields(from, s.thr[from], s) && Fields(to, s.thr[to], s);
    var s1 := s.(current := Some(to));
    var s2 := if s.thr[from].stat == Running then Insert(s1, from) else s1;
    SetStat(Remove(s2, to), to, Running)
  }

  /** The search result is a priority whose queue starts with a ready thread. */
  ghost predicate TopOf(s: Sched, h: nat) {
    && h < |s.ready| && h < s.max && s.ready[h] != [] && s.ready[h][0] in s.thr
    && s.thr[s.ready[h][0]].stat == Ready && s.thr[s.ready[h][0]].prio == h
  }

  lemma TopIs(s: Sched)
    requires Good(s) && s.bm.group != 0
    ensures Findable(s.bm, s.max) && TopOf(s, Highest(s.bm, s.max))
  {
    HighestIs(s.bm, s.max);
    var h := Highest(s.bm, s.max);
    assert s.ready[h][0] in s.ready[h];
  }

  lemma SearchIs(s: Sched)
    requires Good(s) && s.bm.group != 0
    ensures Findable(s.bm, s.max) && TopOf(s, Highest(s.bm, s.max)) && SmallestOn(s.bm, s.max, Highest(s.bm, s.max))
  {
    TopIs(s);
    HighestIs(s.bm, s.max);
  }

  ghost function Schedule(s: Sched): Sched
    requires Good(s) && s.current.Some?
  {
    if s.lock != 0 || s.bm.group == 0 then s
    else
      TopIs(s);
      var h := Highest(s.bm, s.max);
      var to := s.ready[h][0];
      var cur := s.current.value;
      assert Fields(cur, s.thr[cur], s);
      if s.thr[cur].stat == Running && s.thr[cur].prio < h then SetStat(Remove(s, cur), cur, Running)
      else SwitchTo(s, to)
  }

  lemma SwitchKeeps(s: Sched, to: Tid)
    requires Good(s) && s.current.Some? && to in s.thr && s.thr[to].stat == Ready
    ensures Good(SwitchTo(s, to))
  {
    var from := s.current.value;
    assert Placed(from, s.thr[from], s) && Placed(to, s.thr[to], s);
    var s1 := s.(current := Some(to));
    CurrentChanged(s, to);
    if s.thr[from].stat == Running {
      InsertKeeps(s1, from, {to});
      RemoveKeeps(Insert(s1, from), to, {to});
      Narrow(Remove(Insert(s1, from), to), to);
      SetStatKeeps(Remove(Insert(s1, from), to), to, Running, {});
    } else {
      RemoveKeeps(s1, to, {to});
      Narrow(Remove(s1, to), to);
      SetStatKeeps(Remove(s1, to), to, Running, {});
    }
  }

  lemma CurrentChanged(s: Sched, to: Tid)
    requires Good(s) && s.current.Some? && to in s.thr && s.thr[to].stat == Ready
    ensures var from := s.current.value;
            Inv(s.(current := Some(to)), if s.thr[from].stat == Running then {from} else {}, {to})
  {
    var from := s.current.value;
    var g := s.(current := Some(to));
    assert Placed(from, s.thr[from], s);
    forall u | u in g.thr ensures Fields(u, g.thr[u], g) { assert Fields(u, s.thr[u], s); }
    forall u | u in g.thr && u != to && (u != from || s.thr[from].stat != Running) ensures Placed(u, g.thr[u], g) {
      assert Placed(u, s.thr[u], s);
    }
  }

  lemma Narrow(s: Sched, t: Tid)
    requires Inv(s, {t}, {t})
    ensures Inv(s, {t}, {})
  {
  }

  lemma StayKeeps(s: Sched)
    requires Good(s) && s.current.Some? && s.thr[s.current.value].stat == Running
    ensures s.thr[s.current.value].number < 32
    ensures Good(SetStat(Remove(s, s.current.value), s.current.value, Running))
  {
    RemoveKeeps(s, s.current.value, {});
    SetStatKeeps(Remove(s, s.current.value), s.current.value, Running, {});
  }

  lemma ScheduleKeeps(s: Sched)
    requires Good(s) && s.current.Some?
    ensures Good(Schedule(s)) && Schedule(s).current.Some? && Schedule(s).lock == s.lock
  {
    if s.lock == 0 && s.bm.group != 0 {
      TopIs(s);
      var h := Highest(s.bm, s.max);
      var to := s.ready[h][0];
      var cur := s.current.value;
      if s.thr[cur].stat == Running && s.thr[cur].prio < h {
        StayKeeps(s);
      } else {
        SwitchKeeps(s, to);
      }
    }
  }

  // ------------------------------------------------------------ the first switch

  /** rt_system_scheduler_start: nobody ran before. */
  ghost function StartUp(s: Sched): Sched
    requires Good(s) && s.current.None? && s.bm.group != 0
  {
    TopIs(s);
    var to := s.ready[Highest(s.bm, s.max)][0];
    assert Fields(to, s.thr[to], s);
    SetStat(Remove(s.(current := Some(to)), to), to, Running)
  }

  lemma StartKeeps(s: Sched)
    requires Good(s) && s.current.None? && s.bm.group != 0
    ensures Good(StartUp(s)) && StartUp(s).current.Some?
  {
    TopIs(s);
    var to := s.ready[Highest(s.bm, s.max)][0];
    assert Placed(to, s.thr[to], s);
    var g := s.(current := Some(to));
    forall u | u in g.thr ensures Fields(u, g.thr[u], g) { assert Fields(u, s.thr[u], s); }
    forall u | u in g.thr && u != to ensures Placed(u, g.thr[u], g) { assert Placed(u, s.thr[u], s); }
    RemoveKeeps(g, to, {to});
    Narrow(Remove(g, to), to);
    SetStatKeeps(Remove(g, to), to, Running, {});
  }

  // ------------------------------------------------ who runs after rt_schedule

  ghost predicate AnyReady(s: Sched) {
    exists t :: t in s.thr && s.thr[t].stat == Ready
  }

  /** The current thread runs, and no ready thread is strictly more urgent. */
  ghost predicate Settled(s: Sched) {
    && s.current.Some? && s.current.value in s.thr && s.thr[s.current.value].stat == Running
    && forall t :: t in s.thr && s.thr[t].stat == Ready ==> s.thr[s.current.value].prio <= s.thr[t].prio
  }

  lemma OnMeansGroup(b: Bitmap, max: nat, p: nat)
    requires Sound(b, max) && p < max && On(b, max, p)
    ensures b.group != 0
  {
    HighestIs(b, max);
  }

  /** Every ready thread is at least as far down as the search result. */
  lemma ReadyBelowHighest(s: Sched)
    requires Good(s)
    ensures s.bm.group == 0 <==> !AnyReady(s)
    ensures s.bm.group != 0 ==>
              && Findable(s.bm, s.max) && SmallestOn(s.bm, s.max, Highest(s.bm, s.max))
              && AtLeast(s, Highest(s.bm, s.max))
  {
    HighestIs(s.bm, s.max);
    forall t | t in s.thr && s.thr[t].stat == Ready
      ensures s.bm.group != 0 && s.thr[t].prio < s.max && On(s.bm, s.max, s.thr[t].prio)
    {
      assert Fields(t, s.thr[t], s) && Placed(t, s.thr[t], s);
      OnMeansGroup(s.bm, s.max, s.thr[t].prio);
    }
    if s.bm.group != 0 { TopIs(s); }
  }

  ghost predicate AtLeast(s: Sched, h: nat) {
    forall t :: t in s.thr && s.thr[t].stat == Ready ==> h <= s.thr[t].prio
  }

  /** After an unlocked rt_schedule the most urgent thread runs, exactly when there
      was a thread that could: the current one, or a ready one. */
  lemma ScheduleSettlesIff(s: Sched)
    requires Good(s) && s.current.Some? && s.lock == 0
    ensures Settled(Schedule(s)) <==> s.thr[s.current.value].stat == Running || AnyReady(s)
  {
    ReadyBelowHighest(s);
    if s.bm.group != 0 {
      TopIs(s);
      var h, cur := Highest(s.bm, s.max), s.current.value;
      if s.thr[cur].stat == Running && s.thr[cur].prio < h {
        assert Schedule(s).thr == s.thr[cur := s.thr[cur]];
      } else {
        SwitchSettles(s, s.ready[h][0]);
      }
    }
  }

  lemma SwitchSettles(s: Sched, to: Tid)
    requires Good(s) && s.current.Some? && to in s.thr && s.thr[to].stat == Ready && AtLeast(s, s.thr[to].prio)
    requires s.thr[s.current.value].stat == Running ==> s.thr[to].prio <= s.thr[s.current.value].prio
    ensures Settled(SwitchTo(s, to))
  {
    var from, g := s.current.value, SwitchTo(s, to);
    assert Placed(from, s.thr[from], s) && Fields(from, s.thr[from], s) && Fields(to, s.thr[to], s);
    assert g.thr == (if s.thr[from].stat == Running then s.thr[from := s.thr[from].(stat := Ready)] else s.thr)
                    [to := s.thr[to].(stat := Running)];
  }

  /** The first thread to run is a most urgent one. */
  lemma StartSettles(s: Sched)
    requires Good(s) && s.current.None? && s.bm.group != 0
    ensures Settled(StartUp(s))
  {
    ReadyBelowHighest(s);
    TopIs(s);
    var to := s.ready[Highest(s.bm, s.max)][0];
    assert Fields(to, s.thr[to], s);
  }

  /** With an idle thread that is always running or ready, rt_schedule always settles. */
  lemma IdleSettles(s: Sched, idle: Tid)
    requires Good(s) && s.current.Some? && s.lock == 0 && idle in s.thr
    requires s.thr[idle].stat == Running || s.thr[idle].stat == Ready
    ensures Settled(Schedule(s))
  {
    ScheduleSettlesIff(s);
    assert Placed(idle, s.thr[idle], s);
  }

  // -------------------------------------------------------- thread operations

  function WithPrio(b: Tcb, p: nat, max: nat): Tcb {
    b.(prio := p, number := Number(p, max), high := High(p))
  }

  function SetTcb(s: Sched, t: Tid, b: Tcb): Sched {
    s.(thr := s.thr[t := b])
  }

  datatype Op = OpStart                       // rt_system_scheduler_start
              | OpSchedule                    // rt_schedule, rt_thread_yield
              | OpStartup(t: Tid)
              | OpSuspend(t: Tid)
              | OpResume(t: Tid)
              | OpTimeout(t: Tid)
              | OpPriority(t: Tid, p: nat)    // rt_thread_control
              | OpExit                        // rt_thread_exit
              | OpDetach(t: Tid)              // rt_thread_detach, rt_thread_delete
              | OpEnterCritical
              | OpExitCritical

  /** What the calls assert of their arguments. */
  ghost predicate Legal(s: Sched, op: Op) {
    match op
    case OpStart => s.current.None? && s.bm.group != 0
    case OpSchedule => s.current.Some?
    case OpStartup(t) => t in s.thr && s.thr[t].stat == Init
    case OpSuspend(t) => t in s.thr
    case OpResume(t) => t in s.thr
    case OpTimeout(t) => t in s.thr && s.thr[t].stat == Suspend && s.current.Some?
    case OpPriority(t, p) => t in s.thr && p < s.max
    case OpExit => s.current.Some?
    case OpDetach(t) => t in s.thr && s.thr[t].stat != Close
    case OpEnterCritical => true
    case OpExitCritical => true
  }

  ghost function Reschedule(s: Sched): Sched
    requires Good(s)
  {
    if s.current.Some? then Schedule(s) else s
  }

  lemma RescheduleKeeps(s: Sched)
    requires Good(s)
    ensures Good(Reschedule(s))
  {
    if s.current.Some? { ScheduleKeeps(s); }
  }

  /** Out of every queue: the thread is not ready. */
  lemma NotQueued(s: Sched, t: Tid)
    requires Good(s) && t in s.thr && s.thr[t].stat != Ready
    ensures Inv(s, {t}, {})
  {
  }

  lemma SetTcbKeeps(s: Sched, t: Tid, b: Tcb)
    requires Inv(s, {t}, {}) && t in s.thr && Fields(t, b, s)
    ensures Inv(SetTcb(s, t, b), {t}, {})
  {
    var g := SetTcb(s, t, b);
    forall u | u in g.thr ensures Fields(u, g.thr[u], g) {
      if u != t { assert Fields(u, s.thr[u], s); }
    }
    forall u | u in g.thr && u != t ensures Placed(u, g.thr[u], g) { assert Placed(u, s.thr[u], s); }
  }

  /** A thread that never started is in no queue. */
  lemma CloseUnstarted(s: Sched, t: Tid)
    requires Good(s) && t in s.thr && s.thr[t].stat == Init
    ensures Good(SetStat(s, t, Close))
  {
    var g := SetStat(s, t, Close);
    assert Placed(t, s.thr[t], s);
    forall u | u in g.thr ensures Fields(u, g.thr[u], g) { assert Fields(u, s.thr[u], s); }
    forall u | u in g.thr ensures Placed(u, g.thr[u], g) { assert Placed(u, s.thr[u], s); }
  }

  ghost function Started(s: Sched, t: Tid): Sched
    requires Good(s) && t in s.thr && s.thr[t].stat == Init
    ensures Good(Started(s, t))
  {
    assert Fields(t, s.thr[t], s) && Placed(t, s.thr[t], s);
    NotQueued(s, t);
    var b := WithPrio(s.thr[t], s.thr[t].initPrio, s.max).(stat := Suspend);
    SetTcbKeeps(s, t, b);
    InsertKeeps(SetTcb(s, t, b), t, {});
    Insert(SetTcb(s, t, b), t)
  }

  ghost function Resumed(s: Sched, t: Tid): Sched
    requires Good(s) && t in s.thr && s.thr[t].stat == Suspend
    ensures Good(Resumed(s, t)) && Resumed(s, t).current == s.current
  {
    NotQueued(s, t);
    InsertKeeps(s, t, {});
    Insert(s, t)
  }

  ghost function Taken(s: Sched, t: Tid, stat: Stat): Sched
    requires Good(s) && Numbered(s, t) && (stat == Suspend || stat == Close)
    ensures Good(Taken(s, t, stat)) && Taken(s, t, stat).current == s.current
  {
    RemoveKeeps(s, t, {});
    SetStatKeeps(Remove(s, t), t, stat, {});
    SetStat(Remove(s, t), t, stat)
  }

  ghost function Reprioritised(s: Sched, t: Tid, p: nat): Sched
    requires Good(s) && t in s.thr && p < s.max
    ensures Good(Reprioritised(s, t, p))
  {
    assert Fields(t, s.thr[t], s) && Placed(t, s.thr[t], s);
    var b := WithPrio(s.thr[t], p, s.max);
    if s.thr[t].stat == Ready then
      RemoveKeeps(s, t, {});
      SetTcbKeeps(Remove(s, t), t, b);
      InsertKeeps(SetTcb(Remove(s, t), t, b), t, {});
      Insert(SetTcb(Remove(s, t), t, b), t)
    else
      NotQueued(s, t);
      SetTcbKeeps(s, t, b);
      UnqueuedGood(SetTcb(s, t, b), t);
      SetTcb(s, t, b)
  }

  lemma UnqueuedGood(s: Sched, t: Tid)
    requires Inv(s, {t}, {}) && t in s.thr && s.thr[t].prio < |s.ready| && Placed(t, s.thr[t], s)
    ensures Good(s)
  {
  }

  ghost function Step(s: Sched, op: Op): Sched
    requires Good(s) && Legal(s, op)
  {
    match op
    case OpStart => StartUp(s)
    case OpSchedule => Schedule(s)
    case OpStartup(t) => Reschedule(Started(s, t))
    case OpSuspend(t) =>
      if s.thr[t].stat == Ready || s.thr[t].stat == Running then Taken(s, t, Suspend) else s
    case OpResume(t) => if s.thr[t].stat == Suspend then Resumed(s, t) else s
    case OpTimeout(t) => Schedule(Resumed(s, t))
    case OpPriority(t, p) => Reprioritised(s, t, p)
    case OpExit =>
      assert Placed(s.current.value, s.thr[s.current.value], s);
      Schedule(Taken(s, s.current.value, Close))
    case OpDetach(t) => if s.thr[t].stat == Init then SetStat(s, t, Close) else Taken(s, t, Close)
    case OpEnterCritical => s.(lock := Entered(s.lock))
    case OpExitCritical =>
      LockIrrelevant(s, 0);
      if Exited(s.lock) == 0 then Reschedule(s.(lock := 0)) else s.(lock := Exited(s.lock))
  }

  /** The nesting counter is 16 bits wide and signed. */
  function Entered(lock: int): int { if lock == 0x7fff then -0x8000 else lock + 1 }

  function Exited(lock: int): int
  {
    if lock == -0x8000 then 0x7fff else if lock - 1 <= 0 then 0 else lock - 1
  }

  function Nested(n: nat): int {
    if n == 0 then 0 else Entered(Nested(n - 1))
  }

  lemma {:induction false} NestedIs(n: nat)
    ensures Nested(n) == (if n % 0x1_0000 <= 0x7fff then n % 0x1_0000 else n % 0x1_0000 - 0x1_0000)
  {
    if n > 0 {
      NestedIs(n - 1);
      var q, r := (n - 1) / 0x1_0000, (n - 1) % 0x1_0000;
      assert n == if r == 0xffff then (q + 1) * 0x1_0000 else q * 0x1_0000 + (r + 1);
    }
  }

  /** The lock after k calls of rt_exit_critical. */
  function ExitedK(lock: int, k: nat): int {
    if k == 0 then lock else Exited(ExitedK(lock, k - 1))
  }

  /** Up to 0x8000 levels every exit takes one level off, down to zero. */
  lemma {:induction false} ExitedIs(n: nat, k: nat)
    requires n <= 0x8000
    ensures ExitedK(Nested(n), k) == if k == 0 then Nested(n) else if k <= n then n - k else 0
  {
    NestedIs(n);
    if k > 0 { ExitedIs(n, k - 1); }
  }

  /** After n calls of rt_enter_critical the scheduler stays locked until the n-th
      rt_exit_critical exactly while the counter can tell n levels apart, at most
      0x8000 of them; and then the n-th exit opens it. */
  lemma NestingHoldsIff(n: nat)
    requires n >= 1
    ensures (forall k: nat :: k < n ==> ExitedK(Nested(n), k) != 0) <==> n <= 0x8000
    ensures n <= 0x8000 ==> ExitedK(Nested(n), n) == 0
  {
    NestedIs(n);
    if n <= 0x8000 {
      ExitedIs(n, n);
      forall k: nat | k < n ensures ExitedK(Nested(n), k) != 0 { ExitedIs(n, k); }
    } else {
      OpensEarly(n);
    }
  }

  /** Past 0x8000 levels some exit before the last opens the lock. */
  lemma OpensEarly(n: nat)
    requires n > 0x8000
    ensures exists k: nat :: k < n && ExitedK(Nested(n), k) == 0
  {
    var m := n % 0x1_0000;
    NestedIs(n);
    NestedIs(m);
    if m <= 0x8000 {
      ExitedIs(m, m);
      assert ExitedK(Nested(n), m) == 0;
    } else {
      assert ExitedK(Nested(n), 1) == Exited(ExitedK(Nested(n), 0)) == 0;
    }
  }

  /** The first depth that fails: of 0x8001 levels a single exit opens the lock. */
  lemma DeepNestingOpensEarly()
    ensures ExitedK(Nested(0x8001), 1) == 0
  {
    NestedIs(0x8001);
    assert ExitedK(-0x7fff, 1) == Exited(ExitedK(-0x7fff, 0));
  }

  lemma LockIrrelevant(s: Sched, lock: int)
    requires Good(s)
    ensures Good(s.(lock := lock))
  {
    var g := s.(lock := lock);
    forall u | u in g.thr ensures Fields(u, g.thr[u], g) && Placed(u, g.thr[u], g) {
      assert Fields(u, s.thr[u], s) && Placed(u, s.thr[u], s);
    }
  }

  lemma StepKeepsGood(s: Sched, op: Op)
    requires Good(s) && Legal(s, op)
    ensures Good(Step(s, op))
  {
    match op {
      case OpStart => StartKeeps(s);
      case OpSchedule => ScheduleKeeps(s);
      case OpStartup(t) => RescheduleKeeps(Started(s, t));
      case OpSuspend(t) =>
      case OpResume(t) =>
      case OpTimeout(t) => ScheduleKeeps(Resumed(s, t));
      case OpPriority(t, p) =>
      case OpExit =>
        assert Placed(s.current.value, s.thr[s.current.value], s);
        ScheduleKeeps(Taken(s, s.current.value, Close));
      case OpDetach(t) => if s.thr[t].stat == Init { CloseUnstarted(s, t); }
      case OpEnterCritical => LockIrrelevant(s, Entered(s.lock));
      case OpExitCritical =>
        LockIrrelevant(s, 0);
        LockIrrelevant(s, Exited(s.lock));
        RescheduleKeeps(s.(lock := 0));
    }
  }

  ghost predicate Reaches(s: Sched, ops: seq<Op>, g: Sched)
    decreases ops
  {
    if ops == [] then s == g else Good(s) && Legal(s, ops[0]) && Reaches(Step(s, ops[0]), ops[1..], g)
  }

  /** Every run keeps bitmap and queues in agreement, and every thread in the one
      queue that fits its state, or in none. */
  lemma {:induction false} RunKeepsGood(s: Sched, ops: seq<Op>, g: Sched)
    requires Good(s) && Reaches(s, ops, g)
    ensures Good(g)
    decreases ops
  {
    if ops != [] {
      StepKeepsGood(s, ops[0]);
      RunKeepsGood(Step(s, ops[0]), ops[1..], g);
    }
  }

  // ------------------------------------------------------------- round robin

  /** The current thread runs at priority p and nobody is more urgent. */
  ghost predicate Sharing(s: Sched, p: nat) {
    && Good(s) && s.lock == 0 && p < s.max && s.current.Some?
    && s.thr[s.current.value].stat == Running && s.thr[s.current.value].prio == p
    && forall r :: 0 <= r < p ==> s.ready[r] == []
  }

  /** Those who share the processor: the current thread and the queue of its priority. */
  ghost function Line(s: Sched, p: nat): seq<Tid>
    requires Sharing(s, p)
  {
    [s.current.value] + s.ready[p]
  }

  function Rotated(q: seq<Tid>): seq<Tid>
    requires q != []
  {
    q[1..] + [q[0]]
  }

  /** One rt_schedule moves the line on by one place. */
  lemma ScheduleRotates(s: Sched, p: nat)
    requires Sharing(s, p)
    ensures Sharing(Schedule(s), p) && Line(Schedule(s), p) == Rotated(Line(s, p))
  {
    ScheduleKeeps(s);
    var cur := s.current.value;
    if s.ready[p] == [] { AloneStays(s, p); } else { HeadIsNext(s, p); SwitchRotates(s, p); }
  }

  /** Alone at its priority, the current thread goes on. */
  lemma AloneStays(s: Sched, p: nat)
    requires Sharing(s, p) && s.ready[p] == []
    ensures var g := Schedule(s);
            g.current == s.current && g.ready == s.ready && g.lock == s.lock && g.max == s.max &&
            s.current.value in g.thr && g.thr[s.current.value] == s.thr[s.current.value]
  {
    HighestIs(s.bm, s.max);
    var cur := s.current.value;
    assert Placed(cur, s.thr[cur], s);
    if s.bm.group != 0 {
      assert s.ready[Highest(s.bm, s.max)] != [];
      RemoveKeeps(s, cur, {});
    }
  }

  /** With company the head of the queue is next. */
  lemma HeadIsNext(s: Sched, p: nat)
    requires Sharing(s, p) && s.ready[p] != []
    ensures s.ready[p][0] in s.thr && s.thr[s.ready[p][0]].stat == Ready && Schedule(s) == SwitchTo(s, s.ready[p][0])
  {
    SharedIsTop(s, p);
    TopIs(s);
  }

  lemma SharedIsTop(s: Sched, p: nat)
    requires Sharing(s, p) && s.ready[p] != []
    ensures s.bm.group != 0 && Findable(s.bm, s.max) && Highest(s.bm, s.max) == p
  {
    HighestIs(s.bm, s.max);
    assert On(s.bm, s.max, p);
    var h := Highest(s.bm, s.max);
    assert s.ready[h] != [];
  }

  lemma SwitchRotates(s: Sched, p: nat)
    requires Sharing(s, p) && s.ready[p] != []
    ensures s.ready[p][0] in s.thr && s.thr[s.ready[p][0]].stat == Ready
    ensures var g := SwitchTo(s, s.ready[p][0]);
            && g.current == Some(s.ready[p][0]) && g.ready[p] == s.ready[p][1..] + [s.current.value]
            && (forall r :: 0 <= r < p ==> g.ready[r] == []) && |g.ready| == |s.ready|
            && g.thr[s.ready[p][0]].prio == p && g.thr[s.ready[p][0]].stat == Running && g.lock == 0 && g.max == s.max
  {
    var q, from := s.ready[p], s.current.value;
    assert q[0] in q && Fields(from, s.thr[from], s) && Fields(q[0], s.thr[q[0]], s);
    assert q + [from] == [q[0]] + (q[1..] + [from]);
    assert (q + [from])[1..] == q[1..] + [from];
  }

  /** After i calls of rt_schedule. */
  ghost function After(s: Sched, p: nat, i: nat): Sched
    requires Sharing(s, p)
    ensures Sharing(After(s, p, i), p)
  {
    if i == 0 then s else ScheduleRotates(After(s, p, i - 1), p); Schedule(After(s, p, i - 1))
  }

  lemma RotatedSplit(l: seq<Tid>, i: nat)
    requires i < |l|
    ensures Rotated(l[i..] + l[..i]) == l[i + 1..] + l[..i + 1]
  {
    var q := l[i..] + l[..i];
    assert q[0] == l[i] && q[1..] == l[i + 1..] + l[..i];
    assert l[..i + 1] == l[..i] + [l[i]];
  }

  lemma {:induction false} LineAfter(s: Sched, p: nat, i: nat)
    requires Sharing(s, p) && i <= |Line(s, p)|
    ensures Line(After(s, p, i), p) == Line(s, p)[i..] + Line(s, p)[..i]
  {
    var l := Line(s, p);
    if i == 0 {
      assert l[0..] + l[..0] == l;
    } else {
      LineAfter(s, p, i - 1);
      ScheduleRotates(After(s, p, i - 1), p);
      RotatedSplit(l, i - 1);
    }
  }

  /** Of k threads sharing the processor, k consecutive calls run each exactly once,
      in the order of the line, and end with the line as it was. */
  lemma EachRunsOnce(s: Sched, p: nat)
    requires Sharing(s, p)
    ensures var l := Line(s, p);
            forall i :: 1 <= i < |l| ==> After(s, p, i).current == Some(l[i])
    ensures After(s, p, |Line(s, p)|).current == s.current && Line(After(s, p, |Line(s, p)|), p) == Line(s, p)
    ensures Distinct(Line(s, p))
  {
    var l, cur := Line(s, p), s.current.value;
    forall i | 1 <= i < |l| ensures After(s, p, i).current == Some(l[i]) {
      LineAfter(s, p, i);
      assert Line(After(s, p, i), p)[0] == l[i];
    }
    LineAfter(s, p, |l|);
    assert l[|l|..] + l[..|l|] == l;
    assert Line(After(s, p, |l|), p)[0] == l[0];
    assert Placed(cur, s.thr[cur], s);
    assert l[1..] == s.ready[p];
  }
}
