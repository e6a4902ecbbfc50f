/** The firing loop of timer.c, whole runs of calls and ticks, and what callbacks
    that touch timers can do. */
module TimerRuns {
  import opened Words
  import opened IpcList
  import opened TimerSpec

  // ----------------------------------------------------------- rt_timer_check

  /** The timers at the front of a row whose deadline has come. */
  ghost function DuePrefix(row: seq<Id>, due: map<Id, nat>, now: nat): seq<Id>
    requires forall x :: x in row ==> x in due
  {
    if row == [] || due[row[0]] > now then [] else [row[0]] + DuePrefix(row[1..], due, now)
  }

  /** In a sorted row those are all the timers that are due. */
  lemma {:induction false} DuePrefixIs(row: seq<Id>, due: map<Id, nat>, born: map<Id, nat>, now: nat)
    requires Ordered(row, due, born) && forall x :: x in row ==> x in due
    ensures forall x :: x in DuePrefix(row, due, now) <==> x in row && due[x] <= now
  {
    if row != [] {
      assert row == [row[0]] + row[1..];
      forall x | x in row[1..] ensures due[row[0]] <= due[x] { assert Precedes(row[0], x, due, born); }
      DuePrefixIs(row[1..], due, born, now);
    }
  }

  lemma {:induction false} DuePrefixFrame(row: seq<Id>, due: map<Id, nat>, due': map<Id, nat>, now: nat)
    requires forall x :: x in row ==> x in due && x in due' && due'[x] == due[x]
    ensures DuePrefix(row, due, now) == DuePrefix(row, due', now)
  {
    if row != [] {
      assert row[0] in row;
      forall x | x in row[1..] ensures x in row {}
      DuePrefixFrame(row[1..], due, due', now);
    }
  }

  /** A timer that is not due yet changes nothing about those that are. */
  lemma {:induction false} DuePrefixEnlist(row: seq<Id>, t: Id, due: map<Id, nat>, now: nat)
    requires t in due && (forall x :: x in row ==> x in due) && due[t] > now
    ensures forall x :: x in EnlistPrio(row, t, due) ==> x in due
    ensures DuePrefix(EnlistPrio(row, t, due), due, now) == DuePrefix(row, due, now)
  {
    EnlistMembers(row, t, Prio, due);
    if row != [] {
      forall x | x in row[1..] ensures x in row {}
      assert row[0] in row;
      if due[t] >= due[row[0]] {
        DuePrefixEnlist(row[1..], t, due, now);
        assert EnlistPrio(row, t, due)[1..] == EnlistPrio(row[1..], t, due);
      }
    }
  }

  /** The height the counter random_nr gives to the next timer started. */
  function NextHeight(s: Timers, wide: bool): (h: nat)
    requires |s.rows| > 0
    ensures 1 <= h <= |s.rows|
  {
    Height((s.nr + 1) % WORD, wide, |s.rows|)
  }

  /** One round of the loop for timer t, when its callback leaves the timers alone. */
  ghost function Fired(s: Timers, t: Id, wide: bool): Timers
    requires Inv(s, 1) && t in s.tm
  {
    PulledKeeps(s, t, 1);
    if s.tm[t].periodic then Start(Pulled(s, t), t, NextHeight(s, wide), 1) else Pulled(s, t)
  }

  lemma FiredKeeps(s: Timers, t: Id, wide: bool)
    requires Inv(s, 1) && t in s.tm
    ensures Inv(Fired(s, t, wide), 1) && Fired(s, t, wide).now == s.now
  {
    PulledKeeps(s, t, 1);
    if s.tm[t].periodic { StartKeeps(Pulled(s, t), t, NextHeight(s, wide), 1); }
  }

  /** What one round does to the bottom row and to the deadlines. */
  lemma FiredBottom(s: Timers, t: Id, wide: bool)
    requires Inv(s, 1) && t in s.tm && Bottom(s) != [] && Bottom(s)[0] == t
    ensures var g := Fired(s, t, wide);
            && |g.rows| == |s.rows|
            && (if s.tm[t].periodic then t in g.due && g.due[t] == s.now + s.tm[t].init > s.now
                  && (forall x :: x in Bottom(s)[1..] ==> x in g.due) &&
                    Bottom(g) == EnlistPrio(Bottom(s)[1..], t, g.due)
                else Bottom(g) == Bottom(s)[1..])
            && forall x :: x in s.due && x != t ==> x in g.due && g.due[x] == s.due[x]
  {
    var p := Pulled(s, t);
    PulledKeeps(s, t, 1);
    assert Settings(s.tm[t]) && RowOk(Bottom(s), s);
    forall x | x in Bottom(s)[1..] ensures x in Bottom(s) && x != t {}
    if s.tm[t].periodic {
      StartBottom(p, t, NextHeight(s, wide), 1);
      WithoutAbsent(Bottom(p), t);
    }
  }

  lemma FiredDue(s: Timers, t: Id, wide: bool)
    requires Inv(s, 1) && t in s.tm && Bottom(s) != [] && Bottom(s)[0] == t && s.due[t] <= s.now
    ensures var g := Fired(s, t, wide);
            && |g.rows| > 0 && (forall x :: x in Bottom(g) ==> x in g.due)
            && DuePrefix(Bottom(s), s.due, s.now) == [t] + DuePrefix(Bottom(g), g.due, s.now)
  {
    var g := Fired(s, t, wide);
    FiredBottom(s, t, wide);
    FiredKeeps(s, t, wide);
    var r := Bottom(s)[1..];
    assert RowOk(Bottom(s), s);
    forall x | x in r ensures x in Bottom(s) && x != t {}
    DuePrefixFrame(r, s.due, g.due, s.now);
    if s.tm[t].periodic { DuePrefixEnlist(r, t, g.due, s.now); }
  }

  /** The whole loop: the timers it leaves, and those it fired, in order. */
  ghost function Check(s: Timers, wide: bool): (Timers, seq<Id>)
    requires Inv(s, 1)
    decreases |DuePrefix(Bottom(s), s.due, s.now)|
  {
    if Bottom(s) == [] then (s, [])
    else
      var t := Bottom(s)[0];
      if !Expired(s.now, s.tm[t].timeout) then (s, [])
      else
        assert TimeOk(s, t, 1);
        ExpiredIs(s.now, s.due[t]);
        FiredKeeps(s, t, wide);
        FiredDue(s, t, wide);
        var (g, f) := Check(Fired(s, t, wide), wide);
        (g, [t] + f)
  }

  lemma {:induction false} CheckKeeps(s: Timers, wide: bool)
    requires Inv(s, 1)
    ensures var g := Check(s, wide).0;
            Inv(g, 0) && g.now == s.now && forall x :: x in Bottom(g) ==> g.due[x] > s.now
    decreases |DuePrefix(Bottom(s), s.due, s.now)|
  {
    assert RowOk(Bottom(s), s);
    if Bottom(s) != [] {
      var t := Bottom(s)[0];
      assert TimeOk(s, t, 1);
      ExpiredIs(s.now, s.due[t]);
      if s.due[t] <= s.now {
        FiredKeeps(s, t, wide);
        FiredDue(s, t, wide);
        CheckKeeps(Fired(s, t, wide), wide);
      } else {
        DuePrefixIs(Bottom(s), s.due, s.born, s.now);
        SlackGone(s);
      }
    } else {
      SlackGone(s);
    }
  }

  lemma SlackGone(s: Timers)
    requires Inv(s, 1) && forall x :: x in Bottom(s) && x in s.due ==> s.due[x] > s.now
    ensures Inv(s, 0)
  {
    forall x | x in Bottom(s) ensures TimeOk(s, x, 0) { assert TimeOk(s, x, 1); }
  }

  /** rt_timer_check fires exactly the timers that are due, in the order of their
      deadlines and, for equal deadlines, of their starts. */
  lemma {:induction false} CheckFires(s: Timers, wide: bool)
    requires Inv(s, 1)
    ensures Check(s, wide).1 == DuePrefix(Bottom(s), s.due, s.now)
    ensures forall x :: x in Check(s, wide).1 <==> x in Bottom(s) && s.due[x] <= s.now
    ensures Distinct(Check(s, wide).1) && Ordered(Check(s, wide).1, s.due, s.born)
    decreases |DuePrefix(Bottom(s), s.due, s.now)|
  {
    assert RowOk(Bottom(s), s);
    DuePrefixIs(Bottom(s), s.due, s.born, s.now);
    DuePrefixOrder(Bottom(s), s.due, s.born, s.now);
    if Bottom(s) != [] {
      var t := Bottom(s)[0];
      assert TimeOk(s, t, 1);
      ExpiredIs(s.now, s.due[t]);
      if s.due[t] <= s.now {
        FiredKeeps(s, t, wide);
        FiredDue(s, t, wide);
        CheckFires(Fired(s, t, wide), wide);
      }
    }
  }

  lemma {:induction false} DuePrefixOrder(row: seq<Id>, due: map<Id, nat>, born: map<Id, nat>, now: nat)
    requires Distinct(row) && Ordered(row, due, born) && forall x :: x in row ==> x in due
    ensures Distinct(DuePrefix(row, due, now)) && Ordered(DuePrefix(row, due, now), due, born)
    ensures forall x :: x in DuePrefix(row, due, now) ==> x in row
  {
    if row != [] {
      forall x | x in row[1..] ensures x in row {}
      DuePrefixOrder(row[1..], due, born, now);
      if due[row[0]] <= now {
        assert DuePrefix(row, due, now)[1..] == DuePrefix(row[1..], due, now);
      }
    }
  }

  /** What a check leaves of each timer: a one-shot that fired is out and inactive,
      a periodic one stands at now + init_tick, and nothing else has changed. */
  ghost predicate Settled(s: Timers, g: Timers, fired: seq<Id>, x: Id)
    requires |s.rows| > 0 && |g.rows| > 0
  {
    x in s.tm && x in g.tm &&
    if x in fired then
      if s.tm[x].periodic then x in Bottom(g) && x in g.due && g.due[x] == s.now + s.tm[x].init && g.tm[x].active
      else x !in Bottom(g) && !g.tm[x].active
    else
      g.tm[x] == s.tm[x] && (x in Bottom(g) <==> x in Bottom(s)) && (x in s.due ==> x in g.due && g.due[x] == s.due[x])
  }

  lemma FiredSettled(s: Timers, t: Id, wide: bool, x: Id)
    requires Inv(s, 1) && t in s.tm && Bottom(s) != [] && Bottom(s)[0] == t && x in s.tm
    ensures |Fired(s, t, wide).rows| > 0 && Settled(s, Fired(s, t, wide), [t], x)
    ensures Fired(s, t, wide).tm.Keys == s.tm.Keys && Fired(s, t, wide).tm[x].periodic == s.tm[x].periodic
    ensures Fired(s, t, wide).tm[x].init == s.tm[x].init
  {
    var p := Pulled(s, t);
    assert RowOk(Bottom(s), s);
    PulledKeeps(s, t, 1);
    WithoutMembers(Bottom(s), t);
    assert x in [t] <==> x == t;
    if s.tm[t].periodic { StartBottom(p, t, NextHeight(s, wide), 1); }
  }

  lemma {:induction false} CheckSettles(s: Timers, wide: bool, x: Id)
    requires Inv(s, 1) && x in s.tm
    ensures |Check(s, wide).0.rows| > 0 && Settled(s, Check(s, wide).0, Check(s, wide).1, x)
    decreases |DuePrefix(Bottom(s), s.due, s.now)|
  {
    if Bottom(s) != [] {
      var t := Bottom(s)[0];
      assert TimeOk(s, t, 1);
      ExpiredIs(s.now, s.due[t]);
      if s.due[t] <= s.now {
        var h := Fired(s, t, wide);
        FiredKeeps(s, t, wide);
        FiredDue(s, t, wide);
        FiredSettled(s, t, wide, x);
        CheckSettles(h, wide, x);
        CheckFires(h, wide);
        FiredBottom(s, t, wide);
        Twice(s, wide, x);
      }
    }
  }

  /** The first round and the rest of the check, put together. */
  lemma Twice(s: Timers, wide: bool, x: Id)
    requires Inv(s, 1) && x in s.tm && Bottom(s) != [] && s.due[Bottom(s)[0]] <= s.now
    requires var t := Bottom(s)[0]; var h := Fired(s, t, wide);
             Inv(h, 1) && |Check(h, wide).0.rows| > 0 && Settled(s, h, [t], x) &&
               Settled(h, Check(h, wide).0, Check(h, wide).1, x)
             && h.now == s.now && h.tm[x].periodic == s.tm[x].periodic && h.tm[x].init == s.tm[x].init
             && (forall y :: y in Check(h, wide).1 <==> y in Bottom(h) && h.due[y] <= h.now)
    ensures var t := Bottom(s)[0]; var h := Fired(s, t, wide);
            Settled(s, Check(h, wide).0, [t] + Check(h, wide).1, x)
  {
    var t := Bottom(s)[0];
    var f := Check(Fired(s, t, wide), wide).1;
    assert x in [t] + f <==> x == t || x in f;
    assert Settings(s.tm[t]);
  }

  // --------------------------------------------------------------- whole runs

  datatype Op = OpStart(t: Id)                       // rt_timer_start
              | OpStop(t: Id)                        // rt_timer_stop
              | OpSetTime(t: Id, v: nat)             // rt_timer_control
              | OpSetPeriodic(t: Id, on: bool)
              | OpTick                               // rt_tick_increase, then rt_timer_check

  /** Periods are positive and every duration is below half the tick range. */
  ghost predicate Legal(s: Timers, op: Op) {
    match op
    case OpStart(t) => t in s.tm
    case OpStop(t) => t in s.tm
    case OpSetTime(t, v) => t in s.tm && Settings(s.tm[t].(init := v))
    case OpSetPeriodic(t, on) => t in s.tm && Settings(s.tm[t].(periodic := on))
    case OpTick => true
  }

  /** rt_timer_stop: refused for a timer that is not active. */
  function Stop(s: Timers, t: Id): (Timers, bool)
    requires t in s.tm
  {
    if s.tm[t].active then (Pulled(s, t), true) else (s, false)
  }

  function SetTimer(s: Timers, t: Id, m: Timer): Timers {
    s.(tm := s.tm[t := m])
  }

  ghost function Ticked(s: Timers): Timers
    requires Inv(s, 0)
    ensures Inv(Ticked(s), 1)
  {
    var g := s.(now := s.now + 1);
    forall x | x in Bottom(g) ensures TimeOk(g, x, 1) { assert TimeOk(s, x, 0); }
    forall i | 0 <= i < |g.rows| ensures RowOk(g.rows[i], g) { assert RowOk(s.rows[i], s); }
    forall i, j | 0 <= i <= j < |g.rows| ensures Sparser(g.rows[i], g.rows[j]) { assert Sparser(s.rows[i], s.rows[j]); }
    g
  }

  ghost function Step(s: Timers, op: Op, wide: bool): Timers
    requires Inv(s, 0) && Legal(s, op)
  {
    match op
    case OpStart(t) => Start(s, t, NextHeight(s, wide), 0)
    case OpStop(t) => Stop(s, t).0
    case OpSetTime(t, v) => SetTimer(s, t, s.tm[t].(init := v))
    case OpSetPeriodic(t, on) => SetTimer(s, t, s.tm[t].(periodic := on))
    case OpTick => Check(Ticked(s), wide).0
  }

  lemma SetTimerKeeps(s: Timers, t: Id, m: Timer)
    requires Inv(s, 0) && t in s.tm && Settings(m) && m.active == s.tm[t].active && m.timeout == s.tm[t].timeout
    ensures Inv(SetTimer(s, t, m), 0)
  {
    var g := SetTimer(s, t, m);
    forall x | x in Bottom(g) ensures TimeOk(g, x, 0) { assert TimeOk(s, x, 0); }
    forall i | 0 <= i < |g.rows| ensures RowOk(g.rows[i], g) { assert RowOk(s.rows[i], s); }
    forall i, j | 0 <= i <= j < |g.rows| ensures Sparser(g.rows[i], g.rows[j]) { assert Sparser(s.rows[i], s.rows[j]); }
    forall u | u in g.tm ensures Settings(g.tm[u]) && (u in Bottom(g) <==> g.tm[u].active) { assert Settings(s.tm[u]); }
  }

  lemma StepKeeps(s: Timers, op: Op, wide: bool)
    requires Inv(s, 0) && Legal(s, op)
    ensures Inv(Step(s, op, wide), 0)
  {
    match op {
      case OpStart(t) => StartKeeps(s, t, NextHeight(s, wide), 0);
      case OpStop(t) => PulledKeeps(s, t, 0);
      case OpSetTime(t, v) => SetTimerKeeps(s, t, s.tm[t].(init := v));
      case OpSetPeriodic(t, on) => SetTimerKeeps(s, t, s.tm[t].(periodic := on));
      case OpTick => CheckKeeps(Ticked(s), wide);
    }
  }

  ghost predicate Reaches(s: Timers, ops: seq<Op>, g: Timers, wide: bool)
    decreases ops
  {
    if ops == [] then s == g
    else Inv(s, 0) && Legal(s, ops[0]) && Reaches(Step(s, ops[0], wide), ops[1..], g, wide)
  }

  /** Every run with a check on every tick keeps the rows sorted and nested, and
      ACTIVATED in agreement with list membership. */
  lemma {:induction false} RunKeepsInv(s: Timers, ops: seq<Op>, g: Timers, wide: bool)
    requires Inv(s, 0) && Reaches(s, ops, g, wide)
    ensures Inv(g, 0)
    decreases ops
  {
    if ops != [] {
      StepKeeps(s, ops[0], wide);
      RunKeepsInv(Step(s, ops[0], wide), ops[1..], g, wide);
    }
  }

  /** In such a run a timer fires in the tick of its deadline; only one started
      with no time at all is one tick late. */
  lemma FiresOnTime(s: Timers, wide: bool, x: Id)
    requires Inv(s, 0)
    ensures x in Check(Ticked(s), wide).1 <==> x in Bottom(s) && (s.due[x] == s.now + 1 || s.due[x] == s.now)
  {
    CheckFires(Ticked(s), wide);
    if x in Bottom(s) { assert TimeOk(s, x, 0); }
  }

  // ------------------------------------------------------ rows are sub-lists

  ghost predicate Sub(a: seq<Id>, b: seq<Id>) {
    a == [] || (b != [] && if a[0] == b[0] then Sub(a[1..], b[1..]) else Sub(a, b[1..]))
  }

  lemma {:induction false} SparserIsSub(a: seq<Id>, b: seq<Id>, due: map<Id, nat>, born: map<Id, nat>)
    requires Distinct(a) && Distinct(b) && Ordered(a, due, born) && Ordered(b, due, born) && Sparser(a, b)
    ensures Sub(a, b)
    decreases b
  {
    if a != [] {
      assert a[0] in a && b == [b[0]] + b[1..];
      if a[0] == b[0] {
        forall x | x in a[1..] ensures x in b[1..] { assert x in a; }
        SparserIsSub(a[1..], b[1..], due, born);
      } else {
        assert Precedes(b[0], a[0], due, born);
        forall x | x in a ensures x in b[1..] {
          assert x in a[1..] ==> Precedes(a[0], x, due, born);
        }
        SparserIsSub(a, b[1..], due, born);
      }
    }
  }

  /** Each row is a sub-list, in the same order, of every row below it. */
  lemma UpperRowsAreSubLists(s: Timers, i: nat, j: nat)
    requires Inv(s, 0) && i <= j < |s.rows|
    ensures Sub(s.rows[i], s.rows[j])
  {
    assert RowOk(s.rows[i], s) && RowOk(s.rows[j], s);
    SparserIsSub(s.rows[i], s.rows[j], s.due, s.born);
  }

  // ----------------------------------------------- callbacks that touch timers

  /** The end of a round of rt_timer_check, for whatever state g the callback of
      timer t has left. */
  ghost function AfterCallback(g: Timers, t: Id, h: nat): Timers
    requires t in g.tm && Inv(Pulled(g, t), 1) && 1 <= h <= |g.rows|
  {
    if g.tm[t].periodic && g.tm[t].active then Start(Pulled(g, t), t, h, 1)
    else SetTimer(g, t, g.tm[t].(active := false))
  }

  /** ACTIVATED then says whether t is listed, except when the callback has left a
      timer listed that does not restart by itself. */
  lemma CallbackAgreesIff(g: Timers, t: Id, h: nat)
    requires t in g.tm && Inv(Pulled(g, t), 1) && 1 <= h <= |g.rows|
    ensures var r := AfterCallback(g, t, h);
            && |r.rows| > 0 && t in r.tm
            && ((t in Bottom(r) <==> r.tm[t].active) <==> (g.tm[t].periodic && g.tm[t].active) || t !in Bottom(g))
  {
    if g.tm[t].periodic && g.tm[t].active { StartKeeps(Pulled(g, t), t, h, 1); }
  }

  /** So a one-shot timer that its own callback restarts stays listed with
      ACTIVATED cleared, and rt_timer_stop refuses to take it out. */
  lemma RestartedOneShotIsLost(s: Timers, t: Id, h: nat, k: nat)
    requires Inv(s, 1) && t in s.tm && !s.tm[t].periodic && 1 <= h <= |s.rows| && 1 <= k <= |s.rows|
    ensures Inv(Pulled(s, t), 1)
    ensures var g := Start(Pulled(s, t), t, h, 1);
            && t in g.tm && |g.rows| == |s.rows| && Inv(Pulled(g, t), 1)
            && var r := AfterCallback(g, t, k);
               |r.rows| > 0 && t in r.tm && t in Bottom(r) && !r.tm[t].active && Stop(r, t) == (r, false)
  {
    PulledKeeps(s, t, 1);
    var p := Pulled(s, t);
    var g := Start(p, t, h, 1);
    StartKeeps(p, t, h, 1);
    PulledKeeps(g, t, 1);
    StartBottom(p, t, h, 1);
  }

  lemma PulledTwice(s: Timers, t: Id)
    requires t in s.tm && forall i :: 0 <= i < |s.rows| ==> Distinct(s.rows[i])
    ensures Pulled(s.(rows := RowsWithout(s.rows, t)), t) == Pulled(s, t)
  {
    var r := RowsWithout(s.rows, t);
    forall i | 0 <= i < |r| ensures Without(r[i], t) == r[i] {
      WithoutMembers(s.rows[i], t);
      WithoutAbsent(r[i], t);
    }
    assert RowsWithout(r, t) == r;
  }

  /** With a callback that leaves the timers alone, the round is `Fired`. */
  lemma FiredIs(s: Timers, t: Id, wide: bool)
    requires Inv(s, 1) && t in s.tm && s.tm[t].active
    ensures var g := s.(rows := RowsWithout(s.rows, t));
            Inv(Pulled(g, t), 1) && AfterCallback(g, t, NextHeight(s, wide)) == Fired(s, t, wide)
  {
    forall i | 0 <= i < |s.rows| ensures Distinct(s.rows[i]) { assert RowOk(s.rows[i], s); }
    PulledTwice(s, t);
    PulledKeeps(s, t, 1);
  }
}
