/** What the thread calls do to the thread, field by field, and that they leave all
    other threads and their places alone. */
module SchedulerCalls {
  import opened Options
  import opened IpcList
  import opened ReadyBitmap
  import opened SchedulerSpec

  /** Apart from thread t nothing has changed: no field, no place in a queue, and
      neither the running thread nor the lock. */
  ghost predicate Touches(s: Sched, g: Sched, t: Tid) {
    && g.max == s.max && g.current == s.current && g.lock == s.lock && |g.ready| == |s.ready|
    && t in s.thr && g.thr.Keys == s.thr.Keys && (forall x :: x in s.thr && x != t ==> g.thr[x] == s.thr[x])
    && forall p :: 0 <= p < |s.ready| ==> Without(g.ready[p], t) == Without(s.ready[p], t)
  }

  ghost predicate Unqueued(s: Sched, t: Tid) {
    forall p :: 0 <= p < |s.ready| ==> t !in s.ready[p]
  }

  /** t stands at the end of the queue of its priority, and in no other. */
  ghost predicate Last(s: Sched, t: Tid) {
    && t in s.thr && s.thr[t].prio < |s.ready| && s.ready[s.thr[t].prio] != []
    && s.ready[s.thr[t].prio][|s.ready[s.thr[t].prio]| - 1] == t
    && forall p :: 0 <= p < |s.ready| && t in s.ready[p] ==> p == s.thr[t].prio
  }

  // ----------------------------------------------------- insertion and removal

  lemma {:induction false} WithoutLast(q: seq<Tid>, t: Tid)
    requires t !in q
    ensures Without(q + [t], t) == q && Without(q, t) == q
  {
    WithoutSplits(q, t, []);
    assert q + [t] + [] == q + [t] && q + [] == q;
    NotThere(q, t);
  }

  lemma {:induction false} NotThere(q: seq<Tid>, t: Tid)
    requires t !in q
    ensures Without(q, t) == q
  {
    if q != [] { NotThere(q[1..], t); }
  }

  lemma InsertSays(s: Sched, t: Tid)
    requires Inv(s, {t}, {}) && Numbered(s, t)
    ensures s.thr[t].number < 32 && s.thr[t].prio < |s.ready|
    ensures var g := Insert(s, t);
            && Touches(s, g, t)
            && g.thr[t] == s.thr[t].(stat := if s.current == Some(t) then Running else Ready)
            && (if s.current == Some(t) then Unqueued(g, t) else Last(g, t))
  {
    assert Fields(t, s.thr[t], s);
    var q := s.ready[s.thr[t].prio];
    if s.current != Some(t) { WithoutLast(q, t); }
  }

  lemma RemoveSays(s: Sched, t: Tid)
    requires Good(s) && Numbered(s, t)
    ensures s.thr[t].number < 32 && s.thr[t].prio < |s.ready|
    ensures Touches(s, Remove(s, t), t) && Remove(s, t).thr == s.thr && Unqueued(Remove(s, t), t)
  {
    RemoveKeeps(s, t, {});
    assert Fields(t, s.thr[t], s);
    var q := s.ready[s.thr[t].prio];
    WithoutMembers(q, t);
    NotThere(Without(q, t), t);
  }

  lemma TouchesTwice(s: Sched, m: Sched, g: Sched, t: Tid)
    requires Touches(s, m, t) && Touches(m, g, t)
    ensures Touches(s, g, t)
  {
  }

  // -------------------------------------------------------- the thread calls

  /** A suspended thread that is resumed is ready, at the end of the queue of its
      priority; one that has not been switched away from runs on. */
  lemma ResumeSays(s: Sched, t: Tid)
    requires Good(s) && t in s.thr
    ensures var g := Step(s, OpResume(t));
            if s.thr[t].stat != Suspend then g == s
            else
              && Touches(s, g, t)
              && g.thr[t] == s.thr[t].(stat := if s.current == Some(t) then Running else Ready)
              && (if s.current == Some(t) then Unqueued(g, t) else Last(g, t))
  {
    if s.thr[t].stat == Suspend {
      NotQueued(s, t);
      InsertSays(s, t);
    }
  }

  /** A timeout does the same, and the scheduler runs. */
  lemma TimeoutSays(s: Sched, t: Tid)
    requires Good(s) && Legal(s, OpTimeout(t))
    ensures var m := Step(s, OpResume(t));
            Good(m) && m.current.Some? && Step(s, OpTimeout(t)) == Schedule(m)
  {
  }

  /** A ready or running thread that is suspended is in no queue; any other is refused. */
  lemma SuspendSays(s: Sched, t: Tid)
    requires Good(s) && t in s.thr
    ensures var g := Step(s, OpSuspend(t));
            if s.thr[t].stat != Ready && s.thr[t].stat != Running then g == s
            else Touches(s, g, t) && g.thr[t] == s.thr[t].(stat := Suspend) && Unqueued(g, t)
  {
    if s.thr[t].stat == Ready || s.thr[t].stat == Running { TakenSays(s, t, Suspend); }
  }

  lemma TakenSays(s: Sched, t: Tid, stat: Stat)
    requires Good(s) && Numbered(s, t) && (stat == Suspend || stat == Close)
    ensures var g := Taken(s, t, stat);
            Touches(s, g, t) && g.thr[t] == s.thr[t].(stat := stat) && Unqueued(g, t)
  {
    RemoveSays(s, t);
  }

  /** A change of priority leaves the state alone; a ready thread goes to the end of
      its new queue. */
  lemma PrioritySays(s: Sched, t: Tid, p: nat)
    requires Good(s) && t in s.thr && p < s.max
    ensures Requeued(s, Step(s, OpPriority(t, p)), t, p)
  {
    ReprioritisedSays(s, t, p);
  }

  lemma ReprioritisedSays(s: Sched, t: Tid, p: nat)
    requires Good(s) && t in s.thr && p < s.max
    ensures Requeued(s, Reprioritised(s, t, p), t, p)
  {
    if s.thr[t].stat == Ready { RequeuedSays(s, t, p); } else { UnqueuedSays(s, t, p); }
  }

  ghost predicate Requeued(s: Sched, g: Sched, t: Tid, p: nat) {
    && Touches(s, g, t)
    && g.thr[t].prio == p && g.thr[t].stat == s.thr[t].stat && g.thr[t].initPrio == s.thr[t].initPrio
    && g.thr[t].number == Number(p, s.max) && g.thr[t].high == High(p)
    && (if s.thr[t].stat == Ready then Last(g, t) else Unqueued(g, t))
  }

  lemma UnqueuedSays(s: Sched, t: Tid, p: nat)
    requires Good(s) && t in s.thr && p < s.max && s.thr[t].stat != Ready
    ensures Requeued(s, Reprioritised(s, t, p), t, p)
  {
    NotQueued(s, t);
  }

  lemma RequeuedSays(s: Sched, t: Tid, p: nat)
    requires Good(s) && t in s.thr && p < s.max && s.thr[t].stat == Ready
    ensures Requeued(s, Reprioritised(s, t, p), t, p)
  {
    assert Fields(t, s.thr[t], s) && Placed(t, s.thr[t], s);
    var m := SetTcb(Remove(s, t), t, WithPrio(s.thr[t], p, s.max));
    RemoveKeeps(s, t, {});
    SetTcbKeeps(Remove(s, t), t, WithPrio(s.thr[t], p, s.max));
    RemoveSays(s, t);
    InsertSays(m, t);
    TouchesTwice(s, m, Insert(m, t), t);
  }

  /** A thread that is started has its initial priority and is ready, at the end of its
      queue; then the scheduler runs if a thread was running. */
  lemma StartupSays(s: Sched, t: Tid)
    requires Good(s) && t in s.thr && s.thr[t].stat == Init
    ensures exists m :: Good(m) && StartedAs(s, m, t) && Step(s, OpStartup(t)) == Reschedule(m)
  {
    StartedSays(s, t);
  }

  lemma StartedSays(s: Sched, t: Tid)
    requires Good(s) && t in s.thr && s.thr[t].stat == Init
    ensures StartedAs(s, Started(s, t), t)
  {
    assert Fields(t, s.thr[t], s) && Placed(t, s.thr[t], s);
    NotQueued(s, t);
    var b := WithPrio(s.thr[t], s.thr[t].initPrio, s.max).(stat := Suspend);
    SetTcbKeeps(s, t, b);
    InsertSays(SetTcb(s, t, b), t);
  }

  ghost predicate StartedAs(s: Sched, m: Sched, t: Tid) {
    && Touches(s, m, t) && Last(m, t)
    && m.thr[t].stat == Ready && m.thr[t].prio == m.thr[t].initPrio == s.thr[t].initPrio
    && m.thr[t].number == Number(m.thr[t].prio, s.max) && m.thr[t].high == High(m.thr[t].prio)
  }

  /** The thread that exits is closed and in no queue; then the scheduler runs. */
  lemma ExitSays(s: Sched)
    requires Good(s) && s.current.Some?
    ensures exists m :: Good(m) && ClosedAs(s, m, s.current.value) && Step(s, OpExit) == Reschedule(m)
  {
    var t := s.current.value;
    assert Placed(t, s.thr[t], s);
    TakenSays(s, t, Close);
    assert ClosedAs(s, Taken(s, t, Close), t);
  }

  ghost predicate ClosedAs(s: Sched, m: Sched, t: Tid) {
    Touches(s, m, t) && m.thr[t] == s.thr[t].(stat := Close) && Unqueued(m, t)
  }

  /** A thread that is detached is closed and in no queue. */
  lemma DetachSays(s: Sched, t: Tid)
    requires Good(s) && Legal(s, OpDetach(t))
    ensures ClosedAs(s, Step(s, OpDetach(t)), t)
  {
    if s.thr[t].stat != Init { TakenSays(s, t, Close); }
  }

  // -------------------------------------------------------------- rt_schedule

  /** h is the most urgent priority with a ready thread. */
  ghost predicate MostUrgent(s: Sched, h: nat) {
    h < |s.ready| && s.ready[h] != [] && forall p :: 0 <= p < h ==> s.ready[p] == []
  }

  /** Without a ready thread, or while the scheduler is locked, nothing happens. */
  lemma ScheduleIdle(s: Sched)
    requires Good(s) && s.current.Some?
    ensures s.lock != 0 || (forall p :: 0 <= p < |s.ready| ==> s.ready[p] == []) ==> Schedule(s) == s
  {
    if s.lock == 0 && s.bm.group != 0 { TopIs(s); }
  }

  /** Else the first thread of the most urgent queue runs, unless the current one runs
      and is strictly more urgent. A thread that ran goes to the end of its queue; all
      others keep their fields and their places. */
  lemma ScheduleSays(s: Sched, h: nat)
    requires Good(s) && s.current.Some? && s.lock == 0 && MostUrgent(s, h)
    ensures var g, cur := Schedule(s), s.current.value;
            if s.thr[cur].stat == Running && s.thr[cur].prio < h
            then g.current == s.current && g.thr == s.thr && g.ready == s.ready && g.lock == s.lock
            else Switched(s, g, cur, s.ready[h][0])
  {
    UrgentIsHighest(s, h);
    TopIs(s);
    var cur, to := s.current.value, s.ready[h][0];
    assert Fields(cur, s.thr[cur], s) && Placed(cur, s.thr[cur], s);
    if s.thr[cur].stat == Running && s.thr[cur].prio < h {
      RemoveKeeps(s, cur, {});
    } else {
      SwitchSays(s, to, h);
    }
  }

  lemma UrgentIsHighest(s: Sched, h: nat)
    requires Good(s) && MostUrgent(s, h)
    ensures s.bm.group != 0 && Findable(s.bm, s.max) && Highest(s.bm, s.max) == h
  {
    HighestIs(s.bm, s.max);
    assert On(s.bm, s.max, h);
    OnMeansGroup(s.bm, s.max, h);
    SearchIs(s);
  }

  /** The queues after the switch: `from` joins the end of its queue if it ran, and `to`
      leaves the front of its own. */
  ghost predicate Switched(s: Sched, g: Sched, from: Tid, to: Tid)
    requires from in s.thr && to in s.thr
  {
    var ran := s.thr[from].stat == Running;
    && g.max == s.max && g.lock == s.lock && g.current == Some(to) && |g.ready| == |s.ready|
    && g.thr.Keys == s.thr.Keys && g.thr[to] == s.thr[to].(stat := Running)
    && (from != to ==> g.thr[from] == if ran then s.thr[from].(stat := Ready) else s.thr[from])
    && (forall x :: x in s.thr && x != from && x != to ==> g.thr[x] == s.thr[x])
    && forall p :: 0 <= p < |s.ready| ==>
         g.ready[p] == Without(s.ready[p] + (if ran && p == s.thr[from].prio then [from] else []), to)
  }

  lemma SwitchSays(s: Sched, to: Tid, h: nat)
    requires Good(s) && s.current.Some? && MostUrgent(s, h) && to == s.ready[h][0]
    ensures to in s.thr && s.thr[to].stat == Ready && s.current.value in s.thr
    ensures Switched(s, SwitchTo(s, to), s.current.value, to)
  {
    assert to in s.ready[h];
    assert Placed(s.current.value, s.thr[s.current.value], s);
    SwitchFields(s, to);
    SwitchQueues(s, to, h);
  }

  lemma SwitchQueues(s: Sched, to: Tid, h: nat)
    requires Good(s) && s.current.Some? && h < |s.ready| && to in s.ready[h] && to in s.thr && s.thr[to].stat == Ready
    requires to != s.current.value
    ensures var g, b := SwitchTo(s, to), s.thr[s.current.value];
            && |g.ready| == |s.ready|
            && forall p :: 0 <= p < |s.ready| ==>
                 g.ready[p] == Without(s.ready[p] +
                   (if b.stat == Running && p == b.prio then [s.current.value] else []), to)
  {
    var from := s.current.value;
    assert Fields(from, s.thr[from], s) && Fields(to, s.thr[to], s);
    QueuedOnce(s, from, to, h);
  }

  lemma SwitchFields(s: Sched, to: Tid)
    requires Good(s) && s.current.Some? && to in s.thr && s.thr[to].stat == Ready && to != s.current.value
    ensures var g, from := SwitchTo(s, to), s.current.value;
            && g.max == s.max && g.lock == s.lock && g.current == Some(to)
            && g.thr == (if s.thr[from].stat == Running then s.thr[from := s.thr[from].(stat := Ready)] else s.thr)
                        [to := s.thr[to].(stat := Running)]
  {
    var from := s.current.value;
    assert Fields(from, s.thr[from], s) && Fields(to, s.thr[to], s);
  }

  lemma QueuedOnce(s: Sched, from: Tid, to: Tid, h: nat)
    requires Queues(s.ready, s.thr) && h < |s.ready| && to in s.ready[h] && from != to && from in s.thr &&
             s.thr[from].prio < |s.ready|
    ensures forall p :: 0 <= p < |s.ready| && p != h ==>
              Without(s.ready[p] + [], to) == Without(s.ready[p], to) == s.ready[p]
    ensures forall p :: 0 <= p < |s.ready| ==> s.ready[p] + [] == s.ready[p]
    ensures s.thr[from].prio != h ==> var q := s.ready[s.thr[from].prio] + [from]; Without(q, to) == q
  {
    assert s.thr[to].prio == h;
    forall p | 0 <= p < |s.ready| && p != h
      ensures to !in s.ready[p] && Without(s.ready[p] + [], to) == Without(s.ready[p], to) == s.ready[p]
    {
      assert s.ready[p] + [] == s.ready[p];
      assert forall x :: x in s.ready[p] ==> s.thr[x].prio == p;
      NotThere(s.ready[p], to);
    }
    if s.thr[from].prio != h { NotThere(s.ready[s.thr[from].prio] + [from], to); }
  }
}
