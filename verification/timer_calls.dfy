/** What the timer calls do to the timer, and that they leave all other timers alone. */
module TimerCalls {
  import opened Words
  import opened IpcList
  import opened TimerSpec
  import opened TimerRuns

  /** All timers but t are what they were, in the same rows and in the same order. */
  ghost predicate Touches(s: Timers, g: Timers, t: Id) {
    && |g.rows| == |s.rows| && g.now == s.now && t in s.tm && g.tm.Keys == s.tm.Keys
    && (forall x :: x in s.tm && x != t ==> g.tm[x] == s.tm[x])
    && (forall x :: x in s.due && x != t ==> x in g.due && g.due[x] == s.due[x])
    && forall i :: 0 <= i < |s.rows| ==> Without(g.rows[i], t) == Without(s.rows[i], t)
  }

  lemma PulledSays(s: Timers, t: Id, slack: nat)
    requires Inv(s, slack) && t in s.tm
    ensures var g := Pulled(s, t);
            && Touches(s, g, t) && g.tm[t] == s.tm[t].(active := false)
            && forall i :: 0 <= i < |g.rows| ==> t !in g.rows[i]
  {
    var g := Pulled(s, t);
    forall i | 0 <= i < |s.rows| ensures t !in g.rows[i] && Without(g.rows[i], t) == Without(s.rows[i], t) {
      assert RowOk(s.rows[i], s);
      WithoutMembers(s.rows[i], t);
      WithoutAbsent(g.rows[i], t);
    }
  }

  /** rt_timer_stop takes an active timer out of every row, so that the next check does
      not fire it; any other is refused. */
  lemma StopSays(s: Timers, t: Id, wide: bool)
    requires Inv(s, 0) && t in s.tm
    ensures var (g, ok) := Stop(s, t);
            && Inv(g, 0) && (ok <==> s.tm[t].active) && (!ok ==> g == s)
            && (ok ==>
                  && Touches(s, g, t) && g.tm[t] == s.tm[t].(active := false)
                  && (forall i :: 0 <= i < |g.rows| ==> t !in g.rows[i])
                  && t !in Check(Ticked(g), wide).1)
  {
    if s.tm[t].active {
      PulledSays(s, t, 0);
      PulledKeeps(s, t, 0);
      FiresOnTime(Pulled(s, t), wide, t);
    }
  }

  /** rt_timer_start lists the timer in as many of the lowest rows as its height, with a
      deadline init_tick ahead, and active. */
  lemma StartSays(s: Timers, t: Id, h: nat, slack: nat)
    requires Inv(s, slack) && slack <= 1 && t in s.tm && 1 <= h <= |s.rows|
    ensures var g := Start(s, t, h, slack);
            && Touches(s, g, t)
            && g.tm[t] == s.tm[t].(active := true, timeout := (s.now + s.tm[t].init) % WORD)
            && t in g.due && g.due[t] == s.now + s.tm[t].init
            && forall i :: 0 <= i < |g.rows| ==> (t in g.rows[i] <==> i + h >= |g.rows|)
  {
    var g := Start(s, t, h, slack);
    StartFields(s, t, h, slack);
    forall i | 0 <= i < |s.rows|
      ensures Without(g.rows[i], t) == Without(s.rows[i], t) && (t in g.rows[i] <==> i + h >= |s.rows|)
    {
      StartRow(s, t, h, slack, i);
    }
  }

  lemma StartRow(s: Timers, t: Id, h: nat, slack: nat, i: nat)
    requires Inv(s, slack) && slack <= 1 && t in s.tm && 1 <= h <= |s.rows| && i < |s.rows|
    ensures var g := Start(s, t, h, slack);
            i < |g.rows| && Without(g.rows[i], t) == Without(s.rows[i], t) && (t in g.rows[i] <==> i + h >= |s.rows|)
  {
    StartIs(s, t, h, slack, i);
    var q, due := Aimed(s, t).rows[i], Aimed(s, t).due;
    assert RowOk(s.rows[i], s) && q == Without(s.rows[i], t);
    WithoutMembers(s.rows[i], t);
    WithoutAbsent(q, t);
    EnlistedIn(q, t, due);
  }

  lemma EnlistedIn(q: seq<Id>, t: Id, due: map<Id, nat>)
    requires t in due && (forall w :: w in q ==> w in due) && t !in q
    ensures t in EnlistPrio(q, t, due) && Without(EnlistPrio(q, t, due), t) == q
  {
    var k := Position(q, t, Prio, due);
    EnlistAtPosition(q, t, Prio, due);
    assert q[..k] + q[k..] == q && Enlist(q, t, Prio, due) == EnlistPrio(q, t, due);
    WithoutSplits(q[..k], t, q[k..]);
    assert t in q[..k] + [t] + q[k..];
  }

  // ----------------------------------------------------------------- the height

  function Base(wide: bool): nat { if wide then 4 else 2 }

  function Power(b: nat, j: nat): nat { if j == 0 then 1 else b * Power(b, j - 1) }

  /** A timer joins more than j rows, as far as there are any, exactly when the low j
      groups of bits of random_nr are all zero. */
  lemma {:induction false} HeightIs(nr: nat, wide: bool, rows: nat, j: nat)
    requires 1 <= j < rows
    ensures Power(Base(wide), j) > 0
    ensures Height(nr, wide, rows) > j <==> nr % Power(Base(wide), j) == 0
    decreases j
  {
    PowerPositive(wide, j - 1);
    LowGroups(nr, wide, Power(Base(wide), j - 1));
    if j > 1 { HeightIs(Shifted(nr, wide), wide, rows - 1, j - 1); }
  }

  lemma {:induction false} PowerPositive(wide: bool, j: nat)
    ensures Power(Base(wide), j) > 0
  {
    if j > 0 { PowerPositive(wide, j - 1); }
  }

  lemma LowGroups(nr: nat, wide: bool, p: nat)
    requires p > 0
    ensures nr % (Base(wide) * p) == 0 <==> LowBits(nr, wide) == 0 && Shifted(nr, wide) % p == 0
  {
    var q, r := Shifted(nr, wide) / p, Shifted(nr, wide) % p;
    assert Shifted(nr, wide) == p * q + r;
    if wide { Remains(nr, 4 * p, q, 4 * r + nr % 4); } else { Remains(nr, 2 * p, q, 2 * r + nr % 2); }
  }

  lemma Remains(n: nat, m: nat, q: nat, r: nat)
    requires m > 0 && n == m * q + r && r < m
    ensures n % m == r
  {
    var k := n / m;
    QuotientRest(n, m);
    Minus(m, q, k);
    Minus(m, k, q);
    if k < q { MulGrows(q - k, m); } else if k > q { MulGrows(k - q, m); }
  }

  lemma QuotientRest(n: nat, m: nat)
    requires m > 0
    ensures n == m * (n / m) + n % m && 0 <= n % m < m
  {
  }

  lemma Minus(m: nat, a: nat, b: nat)
    ensures m * (a - b) == m * a - m * b
  {
  }

  lemma {:induction false} MulGrows(d: nat, m: nat)
    requires d >= 1
    ensures m * d >= m
  {
    if d > 1 {
      MulGrows(d - 1, m);
      assert m * d == m * (d - 1) + m;
    }
  }
}
