/** The rows, the counter and the loops of timer.c, updated in place. */
module TimerObject {
  import opened Words
  import opened Options
  import opened IpcList
  import opened TimerSpec
  import opened TimerRuns

  /** The cursors of the first n rows. */
  ghost function Cursors(rs: seq<seq<Id>>, n: nat, tm: map<Id, Timer>, timeout: nat): (c: seq<Option<Id>>)
    requires n <= |rs| && forall k, x :: 0 <= k < |rs| && x in rs[k] ==> x in tm
    ensures |c| == n && forall i :: 0 <= i < n ==> c[i] == CursorAt(rs, i, tm, timeout)
  {
    if n == 0 then [] else Cursors(rs, n - 1, tm, timeout) + [CursorAt(rs, n - 1, tm, timeout)]
  }

  lemma CursorStep(rs: seq<seq<Id>>, i: nat, tm: map<Id, Timer>, timeout: nat, c: Option<Id>)
    requires i < |rs| && forall k, x :: 0 <= k < |rs| && x in rs[k] ==> x in tm
    requires c == if i == 0 then None else CursorAt(rs, i - 1, tm, timeout)
    ensures (forall x :: x in After(rs[i], c) ==> x in tm) &&
            CursorAt(rs, i, tm, timeout) == Advance(After(rs[i], c), c, tm, timeout)
    ensures Cursors(rs, i + 1, tm, timeout) == Cursors(rs, i, tm, timeout) + [CursorAt(rs, i, tm, timeout)]
  {
    AfterWithin(rs[i], c);
  }

  class RtTimers {
    const wide: bool                       // RT_TIMER_SKIP_LIST_MASK is 0x3, not 0x1
    const rows: array<seq<Id>>             // rt_timer_list
    var timers: map<Id, Timer>
    var tick: nat                          // rt_tick
    var randomNr: nat                      // random_nr
    ghost var now: nat
    ghost var due: map<Id, nat>
    ghost var born: map<Id, nat>
    ghost var clock: nat

    ghost function Abs(): Timers
      reads this, rows
    {
      Timers(rows[..], timers, now, randomNr, due, born, clock)
    }

    /** rt_tick is the tick cut to 32 bits. */
    ghost predicate Sized()
      reads this
    {
      tick == now % WORD
    }

    ghost predicate Valid(slack: nat)
      reads this, rows
    {
      Sized() && Inv(Abs(), slack)
    }

    /** rt_system_timer_init, with timers that rt_timer_init prepared. */
    constructor (levels: nat, wide: bool, timers: map<Id, Timer>)
      requires levels >= 1
      requires forall t :: t in timers ==> !timers[t].active && Settings(timers[t])
      ensures Valid(0) && fresh(rows) && rows.Length == levels && this.timers == timers && this.wide == wide
      ensures forall i :: 0 <= i < levels ==> rows[i] == []
    {
      this.wide, this.timers, tick, randomNr := wide, timers, 0, 0;
      now, due, born, clock := 0, map[], map[], 0;
      rows := new seq<Id>[levels](_ => []);
    }

    /** _rt_timer_remove. */
    method RemoveFromRows(t: Id)
      modifies rows
      ensures rows[..] == RowsWithout(old(rows[..]), t)
    {
      var i := 0;
      while i < rows.Length
        invariant i <= rows.Length
        invariant forall k :: 0 <= k < i ==> rows[k] == Without(old(rows[k]), t)
        invariant forall k :: i <= k < rows.Length ==> rows[k] == old(rows[k])
      {
        rows[i] := Without(rows[i], t);
        i := i + 1;
      }
    }

    /** The scan of one row of rt_timer_start, from the cursor c on. */
    method ScanRow(row: seq<Id>, c: Option<Id>, timeout: nat) returns (d: Option<Id>)
      requires forall x :: x in row ==> x in timers
      ensures (forall x :: x in After(row, c) ==> x in timers) && d == Advance(After(row, c), c, timers, timeout)
    {
      d := c;
      var rest := After(row, c);
      AfterWithin(row, c);
      ghost var all := rest;
      while rest != []
        invariant (forall x :: x in rest ==> x in timers) && (forall x :: x in all ==> x in timers)
        invariant Advance(all, c, timers, timeout) == Advance(rest, d, timers, timeout)
        decreases |rest|
      {
        var t := timers[rest[0]].timeout;
        assert rest[0] in rest;
        if (t - timeout) % WORD != 0 && (t - timeout) % WORD < HALF { break; }
        forall x | x in rest[1..] ensures x in rest {}
        d, rest := Some(rest[0]), rest[1..];
      }
    }

    /** The descent of rt_timer_start. */
    method Descend(timeout: nat) returns (rowHead: seq<Option<Id>>)
      requires forall k, x :: 0 <= k < rows.Length && x in rows[..][k] ==> x in timers
      ensures rowHead == Cursors(rows[..], rows.Length, timers, timeout)
    {
      rowHead := [];
      ghost var rs := rows[..];
      var lvl := 0;
      var c: Option<Id> := None;
      while lvl < rows.Length
        invariant lvl <= rows.Length
        invariant rowHead == Cursors(rs, lvl, timers, timeout)
        invariant c == if lvl == 0 then None else CursorAt(rs, lvl - 1, timers, timeout)
      {
        assert rs[lvl] == rows[lvl];
        CursorStep(rs, lvl, timers, timeout, c);
        c := ScanRow(rows[lvl], c, timeout);
        rowHead := rowHead + [c];
        lvl := lvl + 1;
      }
    }

    /** The insertions, from the bottom row up, while the counter's low bits are zero. */
    method InsertRows(t: Id, rowHead: seq<Option<Id>>)
      requires |rowHead| == rows.Length > 0
      modifies rows
      ensures forall i :: 0 <= i < rows.Length ==>
                rows[i] == if i + Height(randomNr, wide, rows.Length) >= rows.Length
                           then InsertAfter(old(rows[i]), rowHead[i], t) else old(rows[i])
    {
      var n := rows.Length;
      var tst: nat := randomNr;
      rows[n - 1] := InsertAfter(rows[n - 1], rowHead[n - 1], t);
      var lvl := 2;
      while lvl <= n
        invariant 2 <= lvl <= n + 1
        invariant Height(randomNr, wide, n) == lvl - 2 + Height(tst, wide, n - lvl + 2)
        invariant forall i :: 0 <= i < n ==>
                    rows[i] == if i + lvl - 1 >= n then InsertAfter(old(rows[i]), rowHead[i], t) else old(rows[i])
      {
        if LowBits(tst, wide) != 0 { break; }
        rows[n - lvl] := InsertAfter(rows[n - lvl], rowHead[n - lvl], t);
        tst := Shifted(tst, wide);
        lvl := lvl + 1;
      }
      assert Height(randomNr, wide, n) == lvl - 1;
    }

    /** Out of every row, the flag cleared and the deadline set. */
    method Aim(t: Id)
      requires Sized() && t in timers
      modifies this`timers, this`due, this`born, this`clock, rows
      ensures Abs() == Aimed(old(Abs()), t).(nr := randomNr)
    {
      RemoveFromRows(t);
      timers := timers[t := timers[t].(active := false)];
      TickSum(now, timers[t].init);
      timers := timers[t := timers[t].(timeout := (tick + timers[t].init) % WORD)];
      due, born, clock := due[t := now + timers[t].init], born[t := clock], clock + 1;
    }

    lemma TickSum(now: nat, init: nat)
      ensures (now % WORD + init) % WORD == (now + init) % WORD
    {
      assert now == now % WORD + WORD * (now / WORD);
      assert (now + init) % WORD == (now % WORD + init + WORD * (now / WORD)) % WORD;
      Shift(now % WORD + init, now / WORD);
    }

    lemma Shift(a: nat, k: nat)
      ensures (a + WORD * k) % WORD == a % WORD
    {
      Remainder(a % WORD, a / WORD + k);
    }

    /** The descent, the counter and the insertions. */
    method Enter(t: Id)
      requires Sized() && t in timers && rows.Length > 0
      requires forall k, x :: 0 <= k < rows.Length && x in rows[..][k] ==> x in timers
      modifies this`timers, this`randomNr, rows
      ensures Abs() == Entered(old(Abs()).(nr := (old(randomNr) + 1) % WORD), t,
                               Height((old(randomNr) + 1) % WORD, wide, rows.Length))
    {
      ghost var p := Abs();
      var rowHead := Descend(timers[t].timeout);
      randomNr := (randomNr + 1) % WORD;
      ghost var h := Height(randomNr, wide, rows.Length);
      InsertRows(t, rowHead);
      EnteredRows(p.(nr := randomNr), t, h, rows[..], rowHead);
      timers := timers[t := timers[t].(active := true)];
      assert Abs() == p.(nr := randomNr, rows := rows[..], tm := timers);
    }

    lemma EnteredRows(p: Timers, t: Id, h: nat, rs: seq<seq<Id>>, cs: seq<Option<Id>>)
      requires t in p.tm && |rs| == |cs| == |p.rows| && forall k, x :: 0 <= k < |p.rows| && x in p.rows[k] ==> x in p.tm
      requires cs == Cursors(p.rows, |p.rows|, p.tm, p.tm[t].timeout)
      requires forall i :: 0 <= i < |rs| ==>
                 rs[i] == if i + h >= |rs| then InsertAfter(p.rows[i], cs[i], t) else p.rows[i]
      ensures Entered(p, t, h) == p.(rows := rs, tm := p.tm[t := p.tm[t].(active := true)])
    {
      assert Entered(p, t, h).rows == rs;
    }

    /** rt_timer_start. */
    method Start(t: Id, ghost slack: nat)
      requires Valid(slack) && slack <= 1 && t in timers
      modifies this`timers, this`due, this`born, this`clock, this`randomNr, rows
      ensures Abs() == TimerSpec.Start(old(Abs()), t, NextHeight(old(Abs()), wide), slack) && Valid(slack)
    {
      StartKeeps(Abs(), t, NextHeight(Abs(), wide), slack);
      StartStep(t, slack);
    }

    method StartStep(t: Id, ghost slack: nat)
      requires Valid(slack) && slack <= 1 && t in timers
      modifies this`timers, this`due, this`born, this`clock, this`randomNr, rows
      ensures Abs() == TimerSpec.Start(old(Abs()), t, NextHeight(old(Abs()), wide), slack)
    {
      ghost var s := Abs();
      StartUnfolds(s, t, slack);
      Aim(t);
      assert Abs().(nr := (randomNr + 1) % WORD) == Aimed(s, t);
      Enter(t);
    }

    lemma StartUnfolds(s: Timers, t: Id, slack: nat)
      requires Inv(s, slack) && slack <= 1 && t in s.tm
      ensures var p := Aimed(s, t);
              && |p.rows| == |s.rows| && p.nr == (s.nr + 1) % WORD && t in p.tm
              && (forall k, x :: 0 <= k < |p.rows| && x in p.rows[k] ==> x in p.tm)
              && TimerSpec.Start(s, t, NextHeight(s, wide), slack) == Entered(p, t, NextHeight(s, wide))
    {
      AimedScannable(s, t, slack);
      DescentIs(Aimed(s, t), t, 0);
    }

    /** rt_timer_stop. */
    method Stop(t: Id, ghost slack: nat) returns (ok: bool)
      requires Valid(slack) && t in timers
      modifies this`timers, rows
      ensures Abs() == TimerRuns.Stop(old(Abs()), t).0 && ok == TimerRuns.Stop(old(Abs()), t).1 && Valid(slack)
    {
      if !timers[t].active { return false; }
      PulledKeeps(Abs(), t, slack);
      RemoveFromRows(t);
      timers := timers[t := timers[t].(active := false)];
      return true;
    }

    /** rt_timer_control with RT_TIMER_CTRL_SET_TIME. */
    method SetTime(t: Id, v: nat)
      requires Valid(0) && Legal(Abs(), OpSetTime(t, v))
      modifies this`timers
      ensures Abs() == Step(old(Abs()), OpSetTime(t, v), wide) && Valid(0)
    {
      StepKeeps(Abs(), OpSetTime(t, v), wide);
      timers := timers[t := timers[t].(init := v)];
    }

    /** rt_timer_control with RT_TIMER_CTRL_SET_ONESHOT or RT_TIMER_CTRL_SET_PERIODIC. */
    method SetPeriodic(t: Id, on: bool)
      requires Valid(0) && Legal(Abs(), OpSetPeriodic(t, on))
      modifies this`timers
      ensures Abs() == Step(old(Abs()), OpSetPeriodic(t, on), wide) && Valid(0)
    {
      StepKeeps(Abs(), OpSetPeriodic(t, on), wide);
      timers := timers[t := timers[t].(periodic := on)];
    }

    /** One round of rt_timer_check; the callback of t leaves the timers alone. */
    method Fire(t: Id)
      requires Valid(1) && t in timers && timers[t].active
      modifies this`timers, this`due, this`born, this`clock, this`randomNr, rows
      ensures Abs() == Fired(old(Abs()), t, wide) && Valid(1)
    {
      FiredParts(Abs(), t);
      var again := timers[t].periodic && timers[t].active;
      RemoveFromRows(t);
      timers := timers[t := timers[t].(active := false)];
      assert Abs() == Pulled(old(Abs()), t);
      if again { Start(t, 1); }
    }

    lemma FiredParts(s: Timers, t: Id)
      requires Inv(s, 1) && t in s.tm
      ensures var p := Pulled(s, t);
              && Inv(p, 1) && t in p.tm
              && Fired(s, t, wide) == if s.tm[t].periodic then TimerSpec.Start(p, t, NextHeight(p, wide), 1) else p
    {
      PulledKeeps(s, t, 1);
      PulledHeight(s, t);
      FiredUnfolds(s, t);
    }

    lemma PulledHeight(s: Timers, t: Id)
      requires |s.rows| > 0 && t in s.tm
      ensures |Pulled(s, t).rows| > 0 && NextHeight(Pulled(s, t), wide) == NextHeight(s, wide)
    {
    }

    lemma FiredUnfolds(s: Timers, t: Id)
      requires Inv(s, 1) && t in s.tm && Inv(Pulled(s, t), 1) && NextHeight(Pulled(s, t), wide) == NextHeight(s, wide)
      ensures var p := Pulled(s, t);
              Fired(s, t, wide) == if s.tm[t].periodic then TimerSpec.Start(p, t, NextHeight(p, wide), 1) else p
    {
    }

    /** rt_timer_check, with the timers whose callbacks it calls, in order. */
    method Check() returns (fired: seq<Id>)
      requires Valid(1)
      modifies this`timers, this`due, this`born, this`clock, this`randomNr, rows
      ensures Abs() == TimerRuns.Check(old(Abs()), wide).0 && fired == TimerRuns.Check(old(Abs()), wide).1
      ensures Valid(0)
    {
      fired := [];
      ghost var s := Abs();
      CheckKeeps(s, wide);
      assert [] + TimerRuns.Check(s, wide).1 == TimerRuns.Check(s, wide).1;
      var more := NextDue();
      while more
        invariant Valid(1) && more == Continues(Abs()) && Remains(s, Abs(), fired)
        decreases Dues(Abs())
      {
        ghost var g := Abs();
        var t := Round();
        RemainsAfter(s, g, Abs(), fired, t);
        fired := fired + [t];
        more := NextDue();
      }
      RemainsNothing(s, Abs(), fired);
    }

    /** From g on, the check of s goes on; `fired` have been fired. */
    ghost predicate Remains(s: Timers, g: Timers, fired: seq<Id>)
      requires Inv(s, 1) && Inv(g, 1)
    {
      && TimerRuns.Check(s, wide).0 == TimerRuns.Check(g, wide).0
      && TimerRuns.Check(s, wide).1 == fired + TimerRuns.Check(g, wide).1
    }

    lemma RemainsAfter(s: Timers, g: Timers, g': Timers, fired: seq<Id>, t: Id)
      requires Inv(s, 1) && Inv(g, 1) && Inv(g', 1) && Remains(s, g, fired)
      requires TimerRuns.Check(g, wide).0 == TimerRuns.Check(g', wide).0
      requires TimerRuns.Check(g, wide).1 == [t] + TimerRuns.Check(g', wide).1
      ensures Remains(s, g', fired + [t])
    {
      var rest := TimerRuns.Check(g', wide).1;
      assert fired + ([t] + rest) == (fired + [t]) + rest;
    }

    lemma RemainsNothing(s: Timers, g: Timers, fired: seq<Id>)
      requires Inv(s, 1) && Inv(g, 1) && Remains(s, g, fired) && !Continues(g)
      ensures TimerRuns.Check(s, wide).0 == g && TimerRuns.Check(s, wide).1 == fired
    {
      CheckEnds(g);
    }

    /** The loop of rt_timer_check goes on: there is a first timer, and it is due. */
    ghost predicate Continues(s: Timers)
      requires Inv(s, 1)
    {
      Bottom(s) != [] && Expired(s.now, s.tm[Bottom(s)[0]].timeout)
    }

    ghost function Dues(s: Timers): nat
      requires Inv(s, 1)
    {
      |DuePrefix(Bottom(s), s.due, s.now)|
    }

    method NextDue() returns (more: bool)
      requires Valid(1)
      ensures more == Continues(Abs())
    {
      var row := rows[rows.Length - 1];
      assert row == Bottom(Abs());
      if row == [] { return false; }
      return (tick - timers[row[0]].timeout) % WORD < HALF;
    }

    method Round() returns (t: Id)
      requires Valid(1) && Continues(Abs())
      modifies this`timers, this`due, this`born, this`clock, this`randomNr, rows
      ensures Valid(1) && Dues(Abs()) < Dues(old(Abs()))
      ensures TimerRuns.Check(old(Abs()), wide).0 == TimerRuns.Check(Abs(), wide).0
      ensures TimerRuns.Check(old(Abs()), wide).1 == [t] + TimerRuns.Check(Abs(), wide).1
    {
      t := rows[rows.Length - 1][0];
      assert t == Bottom(Abs())[0];
      RoundKnown(Abs(), t);
      Fire(t);
    }

    lemma CheckEnds(s: Timers)
      requires Inv(s, 1) && !Continues(s)
      ensures TimerRuns.Check(s, wide).0 == s && TimerRuns.Check(s, wide).1 == []
    {
    }

    lemma RoundKnown(s: Timers, t: Id)
      requires Inv(s, 1) && Bottom(s) != [] && Bottom(s)[0] == t && Expired(s.now, s.tm[t].timeout)
      ensures s.tm[t].active && s.due[t] <= s.now && Inv(Fired(s, t, wide), 1)
      ensures TimerRuns.Check(s, wide).0 == TimerRuns.Check(Fired(s, t, wide), wide).0
      ensures TimerRuns.Check(s, wide).1 == [t] + TimerRuns.Check(Fired(s, t, wide), wide).1
      ensures Dues(Fired(s, t, wide)) < Dues(s)
    {
      assert t in Bottom(s);
      assert TimeOk(s, t, 1);
      ExpiredIs(s.now, s.due[t]);
      FiredKeeps(s, t, wide);
      FiredDue(s, t, wide);
    }

    /** rt_tick_increase: the tick, then the check. */
    method TickIncrease() returns (fired: seq<Id>)
      requires Valid(0)
      modifies this, rows
      ensures Abs() == Step(old(Abs()), OpTick, wide) && fired == TimerRuns.Check(Ticked(old(Abs())), wide).1
      ensures Valid(0)
    {
      ghost var s := Ticked(Abs());
      TickSum(now, 1);
      tick := (tick + 1) % WORD;
      now := now + 1;
      assert Abs() == s;
      fired := Check();
    }
  }
}
