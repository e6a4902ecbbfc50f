/** The mutex of ipc.c with priority inheritance: one call or timeout is one
    atomic step between interrupt-disable and interrupt-enable. */
module MutexSpec {
  import opened Options
  import opened IpcList

  /** The mutex fields, the suspended threads, and `current_priority` of every
      thread. `since` and `clock` record the order of arrival of the waiters. */
  datatype Mutex = Mutex(value: nat, owner: Option<Tid>, original: nat, hold: nat,
                         ws: seq<Tid>, prio: map<Tid, nat>, since: map<Tid, nat>, clock: nat)

  datatype Status = Ok | Failed | TimedOut | Suspended

  const NO_PRIORITY := 0xff

  function Fresh(prio: map<Tid, nat>): Mutex {
    Mutex(1, None, NO_PRIORITY, 0, [], prio, map[], 0)
  }

  /** Every thread named by the mutex has a priority. */
  ghost predicate Known(m: Mutex) {
    (forall w :: w in m.ws ==> w in m.prio) && (m.owner.Some? ==> m.owner.value in m.prio)
  }

  /** A call of rt_mutex_take or rt_mutex_release needs a running thread. */
  ghost predicate Running(m: Mutex, t: Tid) {
    t in m.prio && t !in m.ws
  }

  /** `hold` is an 8-bit counter. */
  function Inc(hold: nat): nat { (hold + 1) % 256 }
  function Dec(hold: nat): nat { (hold + 255) % 256 }

  /** rt_mutex_take; `wait` says that the timeout is not zero. */
  function Take(m: Mutex, t: Tid, flag: Flag, wait: bool): (Mutex, Status)
    requires t in m.prio && (forall w :: w in m.ws ==> w in m.prio)
    requires m.value == 0 ==> m.owner.Some? && m.owner.value in m.prio
  {
    if m.owner == Some(t) then (m.(hold := Inc(m.hold)), Ok)
    else if m.value > 0 then
      (m.(value := m.value - 1, owner := Some(t), original := m.prio[t], hold := Inc(m.hold)), Ok)
    else if !wait then (m, TimedOut)
    else
      var o := m.owner.value;
      var prio := if m.prio[t] < m.prio[o] then m.prio[o := m.prio[t]] else m.prio;
      (m.(prio := prio, ws := Enlist(m.ws, t, flag, prio), since := m.since[t := m.clock], clock := m.clock + 1),
          Suspended)
  }

  /** rt_mutex_release. */
  function Release(m: Mutex, t: Tid): (Mutex, Status)
    requires Known(m)
  {
    if m.owner != Some(t) then (m, Failed)
    else if Dec(m.hold) != 0 then (m.(hold := Dec(m.hold)), Ok)
    else
      var prio := m.prio[t := m.original];
      if m.ws == [] then (m.(value := m.value + 1, owner := None, original := NO_PRIORITY, hold := 0, prio := prio), Ok)
      else (m.(owner := Some(m.ws[0]), original := prio[m.ws[0]], hold := 1, ws := m.ws[1..], prio := prio), Ok)
  }

  /** rt_thread_timeout of a waiting thread. */
  function Expire(m: Mutex, t: Tid): Mutex {
    m.(ws := Without(m.ws, t))
  }

  datatype Op = OpTake(t: Tid, wait: bool) | OpRelease(t: Tid) | OpExpire(t: Tid)

  ghost predicate Legal(m: Mutex, op: Op) {
    if op.OpExpire? then op.t in m.ws else Running(m, op.t)
  }

  function Step(m: Mutex, op: Op, flag: Flag): Mutex
    requires Known(m) && op.t in m.prio && (m.value == 0 ==> m.owner.Some?)
  {
    match op
    case OpTake(t, wait) => Take(m, t, flag, wait).0
    case OpRelease(t) => Release(m, t).0
    case OpExpire(t) => Expire(m, t)
  }

  // -------------------------------------------------------------- invariants

  /** Unlocked, unowned and not held coincide. */
  ghost predicate Coherent(m: Mutex) {
    && m.value <= 1
    && (m.value == 1 <==> m.owner == None)
    && (m.hold == 0 <==> m.owner == None)
  }

  ghost predicate Sound(m: Mutex) {
    && Coherent(m) && Known(m) && m.hold < 256
    && (m.owner == None ==> m.ws == [])
    && Distinct(m.ws)
    && (forall w :: w in m.ws ==> w in m.since && m.since[w] < m.clock && m.owner != Some(w))
    && (m.owner.Some? ==> m.prio[m.owner.value] <= m.original)
  }

  /** No waiter is more urgent than the owner. */
  ghost predicate OwnerUrgent(m: Mutex)
    requires Known(m)
  {
    m.owner.Some? ==> forall w :: w in m.ws ==> m.prio[m.owner.value] <= m.prio[w]
  }

  ghost predicate InvPrio(m: Mutex) {
    Sound(m) && Ordered(m.ws, m.prio, m.since) && OwnerUrgent(m)
  }

  /** The step is not the owner taking a mutex it already holds 255 times. */
  predicate NestsOk(m: Mutex, op: Op) {
    !(op.OpTake? && m.owner == Some(op.t) && m.hold == 255)
  }

  lemma TakeKeepsSound(m: Mutex, t: Tid, flag: Flag, wait: bool)
    requires Sound(m) && Running(m, t)
    ensures Sound(Take(m, t, flag, wait).0) <==> !(m.owner == Some(t) && m.hold == 255)
  {
    if m.owner != Some(t) && m.value == 0 && wait {
      var o := m.owner.value;
      var prio := if m.prio[t] < m.prio[o] then m.prio[o := m.prio[t]] else m.prio;
      EnlistMembers(m.ws, t, flag, prio);
      EnlistDistinct(m.ws, t, flag, prio);
    }
  }

  lemma ReleaseKeepsSound(m: Mutex, t: Tid)
    requires Sound(m) && Running(m, t)
    ensures Sound(Release(m, t).0)
  {
    if m.ws != [] { assert m.ws == [m.ws[0]] + m.ws[1..]; }
  }

  lemma ExpireKeepsSound(m: Mutex, t: Tid)
    requires Sound(m)
    ensures Sound(Expire(m, t))
  {
    WithoutMembers(m.ws, t);
  }

  /** `hold` is exact until the owner nests 256 deep: then it reads zero while
      the mutex is owned, and nowhere else does a step break the state. */
  lemma SoundIff(m: Mutex, op: Op, flag: Flag)
    requires Sound(m) && Legal(m, op)
    ensures Sound(Step(m, op, flag)) <==> NestsOk(m, op)
  {
    match op {
      case OpTake(t, wait) => TakeKeepsSound(m, t, flag, wait);
      case OpRelease(t) => ReleaseKeepsSound(m, t);
      case OpExpire(t) => ExpireKeepsSound(m, t);
    }
  }

  // --------------------------------------------------- RT_IPC_FLAG_PRIO runs

  lemma TakeKeepsUrgency(m: Mutex, t: Tid, wait: bool)
    requires InvPrio(m) && Running(m, t) && NestsOk(m, OpTake(t, wait))
    ensures InvPrio(Take(m, t, Prio, wait).0)
  {
    TakeKeepsSound(m, t, Prio, wait);
    if m.owner != Some(t) && m.value == 0 && wait {
      var o := m.owner.value;
      var prio := if m.prio[t] < m.prio[o] then m.prio[o := m.prio[t]] else m.prio;
      var since := m.since[t := m.clock];
      OrderedFrame(m.ws, m.prio, m.since, prio, since);
      EnlistOrdered(m.ws, t, prio, since);
      EnlistMembers(m.ws, t, Prio, prio);
    } else {
      OrderedFrame(m.ws, m.prio, m.since, Take(m, t, Prio, wait).0.prio, m.since);
    }
  }

  lemma ReleaseKeepsUrgency(m: Mutex, t: Tid)
    requires InvPrio(m) && Running(m, t)
    ensures InvPrio(Release(m, t).0)
  {
    ReleaseKeepsSound(m, t);
    var g := Release(m, t).0;
    if m.owner == Some(t) {
      OrderedFrame(m.ws, m.prio, m.since, m.prio[t := m.original], m.since);
      if m.ws != [] {
        assert m.ws == [m.ws[0]] + m.ws[1..];
        forall w | w in m.ws[1..] ensures m.prio[m.ws[0]] <= m.prio[w] {
          assert Precedes(m.ws[0], w, m.prio, m.since);
        }
      }
    }
  }

  lemma ExpireKeepsUrgency(m: Mutex, t: Tid)
    requires InvPrio(m)
    ensures InvPrio(Expire(m, t))
  {
    ExpireKeepsSound(m, t);
    WithoutMembers(m.ws, t);
    WithoutOrdered(m.ws, t, m.prio, m.since);
  }

  function Run(m: Mutex, ops: seq<Op>, flag: Flag): Mutex
    requires LegalRun(m, ops, flag)
    decreases ops
  {
    if ops == [] then m else Run(Step(m, ops[0], flag), ops[1..], flag)
  }

  /** Only running threads call, only waiting threads time out. */
  ghost predicate LegalRun(m: Mutex, ops: seq<Op>, flag: Flag)
    decreases ops
  {
    ops == [] ||
    (Known(m) && (m.value == 0 ==> m.owner.Some?) && ops[0].t in m.prio && Legal(m, ops[0]) &&
     LegalRun(Step(m, ops[0], flag), ops[1..], flag))
  }

  ghost predicate NestsOkRun(m: Mutex, ops: seq<Op>, flag: Flag)
    requires LegalRun(m, ops, flag)
    decreases ops
  {
    ops == [] || (NestsOk(m, ops[0]) && NestsOkRun(Step(m, ops[0], flag), ops[1..], flag))
  }

  lemma {:induction false} StepsKeepUrgency(m: Mutex, ops: seq<Op>)
    requires InvPrio(m) && LegalRun(m, ops, Prio) && NestsOkRun(m, ops, Prio)
    ensures InvPrio(Run(m, ops, Prio))
    decreases ops
  {
    if ops != [] {
      match ops[0] {
        case OpTake(t, wait) => TakeKeepsUrgency(m, t, wait);
        case OpRelease(t) => ReleaseKeepsUrgency(m, t);
        case OpExpire(t) => ExpireKeepsUrgency(m, t);
      }
      StepsKeepUrgency(Step(m, ops[0], Prio), ops[1..]);
    }
  }

  /** Every reachable state of a priority mutex: waiters in order of urgency and
      arrival, an owner no less urgent than any of them, and coherent fields. */
  lemma RunKeepsUrgency(prio: map<Tid, nat>, ops: seq<Op>)
    requires LegalRun(Fresh(prio), ops, Prio) && NestsOkRun(Fresh(prio), ops, Prio)
    ensures InvPrio(Run(Fresh(prio), ops, Prio))
  {
    StepsKeepUrgency(Fresh(prio), ops);
  }

  // ------------------------------------------------ a boost is always undone

  /** t owns the mutex after every step of the run. */
  ghost predicate OwnedThroughout(m: Mutex, ops: seq<Op>, flag: Flag, t: Tid)
    requires LegalRun(m, ops, flag)
    decreases ops
  {
    m.owner == Some(t) && (ops == [] || OwnedThroughout(Step(m, ops[0], flag), ops[1..], flag, t))
  }

  lemma StepKeepsOriginal(m: Mutex, op: Op, flag: Flag)
    requires Sound(m) && Legal(m, op) && m.owner.Some? && Step(m, op, flag).owner == m.owner
    ensures Step(m, op, flag).original == m.original
  {
    if m.ws != [] { assert m.ws[0] in m.ws; }
  }

  lemma {:induction false} RunKeepsOriginal(m: Mutex, ops: seq<Op>, flag: Flag, t: Tid)
    requires Sound(m) && LegalRun(m, ops, flag) && NestsOkRun(m, ops, flag) && OwnedThroughout(m, ops, flag, t)
    ensures Sound(Run(m, ops, flag)) && Run(m, ops, flag).original == m.original && Run(m, ops, flag).owner == Some(t)
    decreases ops
  {
    if ops != [] {
      SoundIff(m, ops[0], flag);
      StepKeepsOriginal(m, ops[0], flag);
      RunKeepsOriginal(Step(m, ops[0], flag), ops[1..], flag, t);
    }
  }

  /** The step makes t the owner: by taking a free mutex or by a handoff. */
  ghost predicate Acquires(m: Mutex, op: Op, flag: Flag, t: Tid)
    requires Known(m) && op.t in m.prio && (m.value == 0 ==> m.owner.Some?)
  {
    m.owner != Some(t) && Step(m, op, flag).owner == Some(t)
  }

  /** Whatever boosts the owner receives while it holds the mutex, its last
      release gives it back the priority it had when it acquired it. */
  lemma LastReleaseRestores(m: Mutex, op: Op, ops: seq<Op>, flag: Flag, t: Tid)
    requires Sound(m) && Legal(m, op) && Acquires(m, op, flag, t)
    requires LegalRun(Step(m, op, flag), ops, flag) && NestsOkRun(Step(m, op, flag), ops, flag)
    requires OwnedThroughout(Step(m, op, flag), ops, flag, t)
    requires Run(Step(m, op, flag), ops, flag).hold == 1
    ensures Known(Run(Step(m, op, flag), ops, flag))
    ensures var g := Release(Run(Step(m, op, flag), ops, flag), t).0;
            g.owner != Some(t) && t in g.prio && g.prio[t] == m.prio[t]
  {
    var m1 := Step(m, op, flag);
    SoundIff(m, op, flag);
    assert t in m.prio && m1.original == m.prio[t] by {
      if op.OpRelease? { assert m.ws[0] in m.ws; }
    }
    RunKeepsOriginal(m1, ops, flag, t);
    var m2 := Run(m1, ops, flag);
    if m2.ws != [] { assert m2.ws[0] in m2.ws; }
  }

  /** A step changes the priority of nobody but the owner. */
  lemma OnlyOwnerBoosted(m: Mutex, op: Op, flag: Flag, x: Tid)
    requires Sound(m) && Legal(m, op) && x in m.prio && m.owner != Some(x)
    ensures x in Step(m, op, flag).prio && Step(m, op, flag).prio[x] == m.prio[x]
  {
  }

  // ------------------------------------------------------ the calls, by fields

  /** A take by the owner nests; a free mutex is taken; another thread's mutex is refused
      to a call that does not wait, and a call that waits is listed and lends the owner
      its priority if that is more urgent. */
  lemma TakeSays(m: Mutex, t: Tid, flag: Flag, wait: bool)
    requires Sound(m) && Running(m, t) && NestsOk(m, OpTake(t, wait))
    ensures var (g, st) := Take(m, t, flag, wait);
            && (m.owner == Some(t) ==> st == Ok && g == m.(hold := m.hold + 1))
            && (m.owner == None ==>
                  st == Ok && g == m.(value := 0, owner := Some(t), hold := 1, original := m.prio[t]))
            && (m.owner.Some? && m.owner != Some(t) && !wait ==> st == TimedOut && g == m)
            && (m.owner.Some? && m.owner != Some(t) && wait ==> st == Suspended && Waits(m, g, t))
  {
    if m.owner.Some? && m.owner != Some(t) && wait {
      var o := m.owner.value;
      EnlistAdds(m.ws, t, flag, if m.prio[t] < m.prio[o] then m.prio[o := m.prio[t]] else m.prio);
    }
  }

  /** t is listed, the owner is no less urgent than before and than t, and that is all. */
  ghost predicate Waits(m: Mutex, g: Mutex, t: Tid)
    requires Known(m) && m.owner.Some? && t in m.prio
  {
    var o := m.owner.value;
    && g.value == m.value && g.owner == m.owner && g.original == m.original && g.hold == m.hold
    && multiset(g.ws) == multiset(m.ws) + multiset{t}
    && g.prio.Keys == m.prio.Keys && g.prio[o] == (if m.prio[t] < m.prio[o] then m.prio[t] else m.prio[o])
    && forall x :: x in m.prio && x != o ==> g.prio[x] == m.prio[x]
  }

  /** Only the owner can release, one level at a time; the last release gives the owner
      its priority back, and the mutex to the first waiter, or to nobody. */
  lemma ReleaseSays(m: Mutex, t: Tid)
    requires Sound(m) && Running(m, t)
    ensures var (g, st) := Release(m, t);
            && (m.owner != Some(t) ==> st == Failed && g == m)
            && (m.owner == Some(t) ==> st == Ok)
            && (m.owner == Some(t) && m.hold > 1 ==> g == m.(hold := m.hold - 1))
            && (m.owner == Some(t) && m.hold == 1 ==>
                  && g.prio == m.prio[t := m.original]
                  && (m.ws == [] ==> g.value == 1 && g.owner == None && g.hold == 0 && g.ws == [])
                  && (m.ws != [] ==>
                        && g.value == 0 && g.owner == Some(m.ws[0]) && g.hold == 1 && g.ws == m.ws[1..]
                        && m.ws[0] in g.prio && g.original == g.prio[m.ws[0]]))
  {
    if m.ws != [] { assert m.ws[0] in m.ws; }
  }

  /** A timeout takes the waiter out of its place. */
  lemma ExpireSays(m: Mutex, t: Tid, a: seq<Tid>, b: seq<Tid>)
    requires Sound(m) && m.ws == a + [t] + b
    ensures Expire(m, t) == m.(ws := a + b)
  {
    NotBefore(a, t, b);
    WithoutSplits(a, t, b);
  }

  // ------------------------------------------------------ what is not promised

  /** The step is the last release, and one of the later waiters is more urgent than
      the first, which becomes the owner. */
  ghost predicate PassesOver(m: Mutex, op: Op)
    requires Known(m)
  {
    && op.OpRelease? && m.owner == Some(op.t) && m.hold == 1 && m.ws != []
    && exists w :: w in m.ws[1..] && m.prio[w] < m.prio[m.ws[0]]
  }

  /** Whatever the flag, one kind of step leaves a waiter more urgent than the owner:
      a handoff, which does not boost the new owner for those still waiting. */
  lemma StaysUrgentIff(m: Mutex, op: Op, flag: Flag)
    requires Sound(m) && OwnerUrgent(m) && Legal(m, op) && NestsOk(m, op)
    ensures Known(Step(m, op, flag))
    ensures OwnerUrgent(Step(m, op, flag)) <==> !PassesOver(m, op)
  {
    SoundIff(m, op, flag);
    match op {
      case OpTake(t, wait) =>
        if m.owner != Some(t) && m.value == 0 && wait {
          var o := m.owner.value;
          EnlistMembers(m.ws, t, flag, if m.prio[t] < m.prio[o] then m.prio[o := m.prio[t]] else m.prio);
        }
      case OpRelease(t) =>
        if m.owner == Some(t) && m.hold == 1 && m.ws != [] { HandoffUrgentIff(m, t); }
      case OpExpire(t) => WithoutMembers(m.ws, t);
    }
  }

  /** After a handoff the new owner is urgent enough exactly when it is no less
      urgent than the other waiters. */
  lemma HandoffUrgentIff(m: Mutex, t: Tid)
    requires Sound(m) && m.owner == Some(t) && m.hold == 1 && m.ws != []
    ensures Known(Release(m, t).0)
    ensures OwnerUrgent(Release(m, t).0) <==> forall w :: w in m.ws[1..] ==> m.prio[m.ws[0]] <= m.prio[w]
  {
    ReleaseKeepsSound(m, t);
    assert m.ws == [m.ws[0]] + m.ws[1..];
    assert m.ws[0] in m.ws && (forall w :: w in m.ws[1..] ==> w in m.ws);
  }

  /** Under RT_IPC_FLAG_FIFO four calls suffice for an owner less urgent than a waiter. */
  lemma FifoHandoffInverts()
    ensures var m := Fresh(map[1 := 20, 2 := 10, 3 := 5]);
            var ops := [OpTake(1, true), OpTake(2, true), OpTake(3, true), OpRelease(1)];
            LegalRun(m, ops, Fifo) && var g := Run(m, ops, Fifo);
            g.owner == Some(2) && g.ws == [3] && 2 in g.prio && 3 in g.prio && g.prio[2] == 10 && g.prio[3] == 5
  {
    var m := Fresh(map[1 := 20, 2 := 10, 3 := 5]);
    var m1 := Step(m, OpTake(1, true), Fifo);
    var m2 := Step(m1, OpTake(2, true), Fifo);
    var m3 := Step(m2, OpTake(3, true), Fifo);
    var m4 := Step(m3, OpRelease(1), Fifo);
    assert m3.ws == [2, 3] && m3.hold == 1;
    assert m4.ws == [3] && m4.owner == Some(2);
    OneMore(m3, OpRelease(1), [], m4);
    OneMore(m2, OpTake(3, true), [OpRelease(1)], m4);
    OneMore(m1, OpTake(2, true), [OpTake(3, true), OpRelease(1)], m4);
    OneMore(m, OpTake(1, true), [OpTake(2, true), OpTake(3, true), OpRelease(1)], m4);
  }

  /** A run with one more step in front. */
  lemma OneMore(m: Mutex, op: Op, ops: seq<Op>, g: Mutex)
    requires Known(m) && (m.value == 0 ==> m.owner.Some?) && op.t in m.prio && Legal(m, op)
    requires LegalRun(Step(m, op, Fifo), ops, Fifo) && Run(Step(m, op, Fifo), ops, Fifo) == g
    ensures LegalRun(m, [op] + ops, Fifo) && Run(m, [op] + ops, Fifo) == g
  {
    assert ([op] + ops)[1..] == ops;
  }

  /** n takes by one thread. */
  function Takes(t: Tid, n: nat): seq<Op> {
    if n == 0 then [] else [OpTake(t, true)] + Takes(t, n - 1)
  }

  /** Depth 255 is reached: a thread that takes n times holds n levels. */
  lemma {:induction false} NestsToDepth(m: Mutex, t: Tid, n: nat)
    requires Sound(m) && t in m.prio && t !in m.ws && m.hold + n <= 255
    requires m.owner == Some(t) || (m.owner == None && n > 0)
    ensures LegalRun(m, Takes(t, n), Prio)
    ensures var g := Run(m, Takes(t, n), Prio);
            Sound(g) && g.owner == Some(t) && g.hold == m.hold + n
    decreases n
  {
    if n > 0 {
      var op := OpTake(t, true);
      SoundIff(m, op, Prio);
      assert Takes(t, n)[0] == op && Takes(t, n)[1..] == Takes(t, n - 1);
      NestsToDepth(Step(m, op, Prio), t, n - 1);
    }
  }

  /** A thread that takes a new mutex 257 times and releases it once has given it
      away with 256 takes outstanding; at depth 256 `hold` reads zero. */
  lemma OverNestedReleasesEarly(prio: map<Tid, nat>, t: Tid)
    requires t in prio
    ensures LegalRun(Fresh(prio), Takes(t, 255), Prio)
    ensures var m := Run(Fresh(prio), Takes(t, 255), Prio);
            && Sound(m) && m.owner == Some(t) && m.hold == 255
            && var m1 := Take(m, t, Prio, true).0;
               var m2 := Take(m1, t, Prio, true).0;
               !Coherent(m1) && m1.hold == 0 && m1.owner == Some(t) && m2.hold == 1 && Release(m2, t).0.owner != Some(t)
  {
    NestsToDepth(Fresh(prio), t, 255);
    WrapsAt255(Run(Fresh(prio), Takes(t, 255), Prio), t);
  }

  /** Two more takes at depth 255 and a single release pass the mutex on. */
  lemma WrapsAt255(m: Mutex, t: Tid)
    requires Sound(m) && m.owner == Some(t) && m.hold == 255
    ensures var m1 := Take(m, t, Prio, true).0;
            var m2 := Take(m1, t, Prio, true).0;
            !Coherent(m1) && m1.hold == 0 && m1.owner == Some(t) && m2.hold == 1 && Release(m2, t).0.owner != Some(t)
  {
    if m.ws != [] { assert m.ws[0] in m.ws; }
  }
}
