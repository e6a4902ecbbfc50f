/** The hard timers of timer.c: a skip list of any number of rows, the wrapping
    comparison of ticks, and rt_timer_start. The order of a row is that of IpcList,
    with deadlines for priorities. */
module TimerSpec {
  import opened Words
  import opened Options
  import opened IpcList

  type Id = Tid

  const HALF := 0x7fff_ffff       // RT_TICK_MAX / 2

  datatype Timer = Timer(init: nat, timeout: nat, active: bool, periodic: bool)

  /** The rows from the sparsest to the bottom one, the timers, and the tick as
      an unbounded number; `due` and `born` record, for the statement of the
      properties only, each timer's unbounded deadline and its place in the
      order of starts. */
  datatype Timers = Timers(rows: seq<seq<Id>>, tm: map<Id, Timer>, now: nat, nr: nat,
                           due: map<Id, nat>, born: map<Id, nat>, clock: nat)

  function Bottom(s: Timers): seq<Id>
    requires |s.rows| > 0
  {
    s.rows[|s.rows| - 1]
  }

  // ----------------------------------------------------------- the comparison

  /** The unsigned test of rt_timer_start: a lies after b. */
  predicate Later(a: nat, b: nat) {
    (a - b) % WORD != 0 && (a - b) % WORD < HALF
  }

  /** The unsigned test of rt_timer_check: the deadline has come. */
  predicate Expired(now: nat, timeout: nat) {
    (now % WORD - timeout) % WORD < HALF
  }

  // ----------------------------------------------------------------- the rows

  /** The timers of a row behind a cursor: a timer of the row, or its head. */
  function After(row: seq<Id>, c: Option<Id>): seq<Id> {
    if c.None? then row
    else if row == [] then [] else if row[0] == c.value then row[1..] else After(row[1..], c)
  }

  /** rt_list_insert_after. */
  function InsertAfter(row: seq<Id>, c: Option<Id>, t: Id): seq<Id> {
    if c.None? || row == [] then [t] + row
    else if row[0] == c.value then [row[0], t] + row[1..]
    else [row[0]] + InsertAfter(row[1..], c, t)
  }

  /** How far the scan of one row moves the cursor c, behind which `rest` stands. */
  function Advance(rest: seq<Id>, c: Option<Id>, tm: map<Id, Timer>, timeout: nat): Option<Id>
    requires forall x :: x in rest ==> x in tm
    decreases rest
  {
    if rest == [] || Later(tm[rest[0]].timeout, timeout) then c
    else Advance(rest[1..], Some(rest[0]), tm, timeout)
  }

  /** The cursor in row i after the descent: the scan of a row starts at the
      timer where the row above was left. */
  function CursorAt(rows: seq<seq<Id>>, i: nat, tm: map<Id, Timer>, timeout: nat): Option<Id>
    requires i < |rows| && forall k, x :: 0 <= k < |rows| && x in rows[k] ==> x in tm
  {
    var c := if i == 0 then None else CursorAt(rows, i - 1, tm, timeout);
    AfterWithin(rows[i], c);
    Advance(After(rows[i], c), c, tm, timeout)
  }

  lemma {:induction false} AfterWithin(row: seq<Id>, c: Option<Id>)
    ensures forall x :: x in After(row, c) ==> x in row
  {
    if row != [] {
      assert row == [row[0]] + row[1..];
      AfterWithin(row[1..], c);
    }
  }

  /** The counter's low bits under RT_TIMER_SKIP_LIST_MASK, one or two of them,
      and the counter shifted past them. */
  function LowBits(nr: nat, wide: bool): nat { if wide then nr % 4 else nr % 2 }
  function Shifted(nr: nat, wide: bool): nat { if wide then nr / 4 else nr / 2 }

  /** How many rows a started timer joins, given random_nr. */
  function Height(nr: nat, wide: bool, rows: nat): (h: nat)
    requires rows > 0
    ensures 1 <= h <= rows
    decreases rows
  {
    if rows == 1 || LowBits(nr, wide) != 0 then 1 else 1 + Height(Shifted(nr, wide), wide, rows - 1)
  }

  // -------------------------------------------------------------- operations

  /** _rt_timer_remove. */
  function RowsWithout(rows: seq<seq<Id>>, t: Id): (r: seq<seq<Id>>)
    ensures |r| == |rows| && forall i :: 0 <= i < |rows| ==> r[i] == Without(rows[i], t)
  {
    if rows == [] then [] else [Without(rows[0], t)] + RowsWithout(rows[1..], t)
  }

  /** A timer out of every row, with the flag cleared. */
  function Pulled(s: Timers, t: Id): Timers
    requires t in s.tm
  {
    s.(rows := RowsWithout(s.rows, t),
       tm := s.tm[t := s.tm[t].(active := false)])
  }

  /** Before the descent of rt_timer_start: out of every row, the deadline set. */
  function Aimed(s: Timers, t: Id): Timers
    requires t in s.tm
  {
    var p := Pulled(s, t);
    var d := s.now + s.tm[t].init;
    p.(tm := p.tm[t := p.tm[t].(timeout := d % WORD)],
       due := s.due[t := d], born := s.born[t := s.clock], clock := s.clock + 1, nr := (s.nr + 1) % WORD)
  }

  /** The descent and the insertions. */
  function Entered(p: Timers, t: Id, h: nat): Timers
    requires t in p.tm && forall k, x :: 0 <= k < |p.rows| && x in p.rows[k] ==> x in p.tm
  {
    p.(rows := seq(|p.rows|, i requires 0 <= i < |p.rows| =>
                 if i + h >= |p.rows| then InsertAfter(p.rows[i], CursorAt(p.rows, i, p.tm, p.tm[t].timeout), t)
                   else p.rows[i]),
       tm := p.tm[t := p.tm[t].(active := true)])
  }

  // --------------------------------------------------------------- invariants

  /** One row: deadlines in order, equal deadlines in start order. */
  ghost predicate RowOk(row: seq<Id>, s: Timers) {
    && Distinct(row) && Ordered(row, s.due, s.born)
    && forall x :: x in row ==> x in s.tm && x in s.due && x in s.born
  }

  /** A listed deadline is fewer than HALF ticks ahead and at most `slack` behind. */
  ghost predicate TimeOk(s: Timers, x: Id, slack: nat)
    requires x in s.tm && x in s.due && x in s.born
  {
    && s.due[x] + slack >= s.now && s.due[x] < s.now + HALF
    && s.tm[x].timeout == s.due[x] % WORD && s.born[x] < s.clock
  }

  ghost predicate Settings(m: Timer) {
    m.init < HALF && (m.periodic ==> m.init >= 1)
  }

  ghost predicate Sparser(a: seq<Id>, b: seq<Id>) {
    forall x :: x in a ==> x in b
  }

  /** All rows are in order, each holds only timers of the row below, listed means
      active, and all deadlines are near. */
  ghost predicate Inv(s: Timers, slack: nat) {
    && |s.rows| > 0
    && (forall i :: 0 <= i < |s.rows| ==> RowOk(s.rows[i], s))
    && (forall i, j :: 0 <= i <= j < |s.rows| ==> Sparser(s.rows[i], s.rows[j]))
    && (forall t :: t in s.tm ==> Settings(s.tm[t]) && (t in Bottom(s) <==> s.tm[t].active))
    && (forall x :: x in Bottom(s) ==> x in s.tm && x in s.due && x in s.born && TimeOk(s, x, slack))
  }

  // --------------------------------------------------- ticks against deadlines

  /** Within HALF ticks of each other, the wrapping test orders deadlines. */
  lemma LaterIs(a: nat, b: nat)
    requires a < b + HALF && b < a + HALF + 2
    ensures Later(a % WORD, b % WORD) <==> a > b
  {
    ModDiff(a, b);
  }

  lemma ExpiredIs(now: nat, due: nat)
    requires due < now + HALF && now <= due + 1
    ensures Expired(now, due % WORD) <==> due <= now
  {
    ModDiff(now, due);
  }

  lemma ModDiff(a: nat, b: nat)
    ensures (a % WORD - b % WORD) % WORD == (a - b) % WORD
  {
    var k := (a - b) / WORD;
    var r := (a - b) % WORD;
    var p, q := a / WORD, b / WORD;
    assert a % WORD - b % WORD == r + WORD * (k - p + q);
    Remainder(r, k - p + q);
  }

  lemma Remainder(r: int, m: int)
    requires 0 <= r < WORD
    ensures (r + WORD * m) % WORD == r
  {
  }

  // -------------------------------------------------------- scan and insertion

  /** What the descent of rt_timer_start meets: rows in order, the timer itself
      out of them, and a test that compares deadlines. */
  ghost predicate Scannable(row: seq<Id>, t: Id, tm: map<Id, Timer>, due: map<Id, nat>, born: map<Id, nat>) {
    && t in tm && t in due && Distinct(row) && t !in row && Ordered(row, due, born)
    && forall x :: x in row ==> x in tm && x in due && (Later(tm[x].timeout, tm[t].timeout) <==> due[x] > due[t])
  }

  /** A cursor may start a scan when its own timer is not later. */
  ghost predicate Startable(row: seq<Id>, c: Option<Id>, t: Id, due: map<Id, nat>)
    requires t in due && forall x :: x in row ==> x in due
  {
    c.Some? ==> c.value in row && due[c.value] <= due[t]
  }

  lemma Tail(row: seq<Id>, t: Id, tm: map<Id, Timer>, due: map<Id, nat>, born: map<Id, nat>)
    requires Scannable(row, t, tm, due, born) && row != []
    ensures Scannable(row[1..], t, tm, due, born) && row[0] in due && row[0] in tm
    ensures forall x :: x in row[1..] ==> x in row && x != row[0] && due[row[0]] <= due[x]
  {
    assert row[0] in row;
    forall x | x in row[1..] ensures x in row {}
  }

  /** A scan that starts at any timer no later than the new one ends where a scan
      from the head of the row ends, and the insertion there is the stable one. */
  lemma {:induction false} ScanIs(row: seq<Id>, c: Option<Id>, t: Id, tm: map<Id, Timer>, due: map<Id, nat>,
                                  born: map<Id, nat>)
    requires Scannable(row, t, tm, due, born) && Startable(row, c, t, due)
    ensures forall x :: x in After(row, c) ==> x in tm
    ensures var d := Advance(After(row, c), c, tm, tm[t].timeout);
            Startable(row, d, t, due) && InsertAfter(row, d, t) == EnlistPrio(row, t, due) && (c.Some? ==> d.Some?)
    decreases |row|, if c.None? then 1 else 0
  {
    AfterWithin(row, c);
    if row != [] {
      Tail(row, t, tm, due, born);
      if c.None? {
        if due[row[0]] <= due[t] { ScanIs(row, Some(row[0]), t, tm, due, born); }
      } else if c.value == row[0] {
        ScanFromFirst(row, t, tm, due, born);
      } else {
        assert c.value in row[1..];
        ScanIs(row[1..], c, t, tm, due, born);
        assert After(row, c) == After(row[1..], c);
      }
    }
  }

  lemma {:induction false} ScanFromFirst(row: seq<Id>, t: Id, tm: map<Id, Timer>, due: map<Id, nat>, born: map<Id, nat>)
    requires row != [] && Scannable(row, t, tm, due, born) && row[0] in due && due[row[0]] <= due[t]
    ensures forall x :: x in row[1..] ==> x in tm
    ensures var d := Advance(row[1..], Some(row[0]), tm, tm[t].timeout);
            Startable(row, d, t, due) && InsertAfter(row, d, t) == EnlistPrio(row, t, due) && d.Some?
    decreases |row|, 0
  {
    Tail(row, t, tm, due, born);
    var r := row[1..];
    if r != [] {
      assert r[0] in r;
      if due[r[0]] <= due[t] {
        ScanFromFirst(r, t, tm, due, born);
      }
    }
  }

  // ----------------------------------------------------------- rt_timer_start

  ghost predicate AllScannable(p: Timers, t: Id) {
    && |p.rows| > 0 && t in p.tm && t in p.due
    && (forall i :: 0 <= i < |p.rows| ==> Scannable(p.rows[i], t, p.tm, p.due, p.born))
    && (forall i, j :: 0 <= i <= j < |p.rows| ==> Sparser(p.rows[i], p.rows[j]))
  }

  /** Row by row, the descent ends where a scan of the whole row would. */
  lemma {:induction false} DescentIs(p: Timers, t: Id, i: nat)
    requires AllScannable(p, t) && i < |p.rows|
    ensures forall k, x :: 0 <= k < |p.rows| && x in p.rows[k] ==> x in p.tm
    ensures var d := CursorAt(p.rows, i, p.tm, p.tm[t].timeout);
            Startable(p.rows[i], d, t, p.due) && InsertAfter(p.rows[i], d, t) == EnlistPrio(p.rows[i], t, p.due)
  {
    forall k, x | 0 <= k < |p.rows| && x in p.rows[k] ensures x in p.tm {
      assert Scannable(p.rows[k], t, p.tm, p.due, p.born);
    }
    var c: Option<Id> := None;
    if i > 0 {
      DescentIs(p, t, i - 1);
      c := CursorAt(p.rows, i - 1, p.tm, p.tm[t].timeout);
      assert Sparser(p.rows[i - 1], p.rows[i]);
    }
    ScanIs(p.rows[i], c, t, p.tm, p.due, p.born);
  }

  /** Out of every row and with its deadline set, a timer can be entered. */
  lemma AimedScannable(s: Timers, t: Id, slack: nat)
    requires Inv(s, slack) && slack <= 1 && t in s.tm
    ensures AllScannable(Aimed(s, t), t)
  {
    var p := Aimed(s, t);
    forall i | 0 <= i < |p.rows| ensures Scannable(p.rows[i], t, p.tm, p.due, p.born) {
      assert RowOk(s.rows[i], s) && Sparser(s.rows[i], Bottom(s));
      AimedRow(s, t, slack, s.rows[i]);
    }
    forall i, j | 0 <= i <= j < |p.rows| ensures Sparser(p.rows[i], p.rows[j]) {
      assert Sparser(s.rows[i], s.rows[j]) && RowOk(s.rows[i], s) && RowOk(s.rows[j], s);
      WithoutMembers(s.rows[i], t);
      WithoutMembers(s.rows[j], t);
    }
  }

  lemma AimedRow(s: Timers, t: Id, slack: nat, row: seq<Id>)
    requires Inv(s, slack) && slack <= 1 && t in s.tm && RowOk(row, s) && Sparser(row, Bottom(s))
    ensures var p := Aimed(s, t); Scannable(Without(row, t), t, p.tm, p.due, p.born)
  {
    var p := Aimed(s, t);
    var r := Without(row, t);
    WithoutMembers(row, t);
    WithoutOrdered(row, t, s.due, s.born);
    OrderedFrame(r, s.due, s.born, p.due, p.born);
    assert Settings(s.tm[t]);
    forall x | x in r ensures Later(p.tm[x].timeout, p.tm[t].timeout) <==> p.due[x] > p.due[t] {
      AimedLater(s, t, x, slack);
    }
  }

  lemma AimedLater(s: Timers, t: Id, x: Id, slack: nat)
    requires Inv(s, slack) && slack <= 1 && t in s.tm && x in Bottom(s) && x != t
    ensures var p := Aimed(s, t);
            x in p.tm && x in p.due && (Later(p.tm[x].timeout, p.tm[t].timeout) <==> p.due[x] > p.due[t])
  {
    assert TimeOk(s, x, slack) && Settings(s.tm[t]);
    LaterIs(s.due[x], s.now + s.tm[t].init);
  }

  /** rt_timer_start, when the timer joins the h lowest rows. */
  ghost function Start(s: Timers, t: Id, h: nat, slack: nat): Timers
    requires Inv(s, slack) && slack <= 1 && t in s.tm && 1 <= h <= |s.rows|
  {
    AimedScannable(s, t, slack);
    DescentIs(Aimed(s, t), t, 0);
    Entered(Aimed(s, t), t, h)
  }

  /** What the fields other than the rows become. */
  lemma StartFields(s: Timers, t: Id, h: nat, slack: nat)
    requires Inv(s, slack) && slack <= 1 && t in s.tm && 1 <= h <= |s.rows|
    ensures var g, p := Start(s, t, h, slack), Aimed(s, t);
            && |g.rows| == |s.rows| == |p.rows| && g.due == p.due && g.born == p.born
            && g.tm == p.tm[t := p.tm[t].(active := true)] && g.now == s.now && g.clock == s.clock + 1
  {
    AimedScannable(s, t, slack);
  }

  /** The fast descent and a linear scan agree on every row: the new timer goes
      behind all deadlines that are no later, its height decides in which rows. */
  lemma StartIs(s: Timers, t: Id, h: nat, slack: nat, i: nat)
    requires Inv(s, slack) && slack <= 1 && t in s.tm && 1 <= h <= |s.rows| && i < |s.rows|
    ensures var g, p := Start(s, t, h, slack), Aimed(s, t);
            && i < |g.rows| && i < |p.rows| && t in p.due && (forall w :: w in p.rows[i] ==> w in p.due)
            && g.rows[i] == if i + h >= |s.rows| then EnlistPrio(p.rows[i], t, p.due) else p.rows[i]
  {
    AimedScannable(s, t, slack);
    var p := Aimed(s, t);
    assert Scannable(p.rows[i], t, p.tm, p.due, p.born);
    DescentIs(p, t, i);
  }

  /** The bottom row always takes the timer. */
  lemma StartBottomRow(s: Timers, t: Id, h: nat, slack: nat)
    requires Inv(s, slack) && slack <= 1 && t in s.tm && 1 <= h <= |s.rows|
    ensures var g, p := Start(s, t, h, slack), Aimed(s, t);
            && |g.rows| == |p.rows| > 0 && t in p.due && (forall w :: w in Bottom(p) ==> w in p.due)
            && Bottom(g) == EnlistPrio(Bottom(p), t, p.due)
  {
    StartFields(s, t, h, slack);
    BottomRowIs(s, t, h, slack, |s.rows| - 1);
  }

  lemma BottomRowIs(s: Timers, t: Id, h: nat, slack: nat, i: nat)
    requires Inv(s, slack) && slack <= 1 && t in s.tm && 1 <= h <= |s.rows| && i == |s.rows| - 1
    ensures var g, p := Start(s, t, h, slack), Aimed(s, t);
            && i < |g.rows| && i < |p.rows| && t in p.due && (forall w :: w in p.rows[i] ==> w in p.due)
            && g.rows[i] == EnlistPrio(p.rows[i], t, p.due)
  {
    StartIs(s, t, h, slack, i);
  }

  lemma ScanBottom(p: Timers, t: Id)
    requires |p.rows| > 0 && Scannable(Bottom(p), t, p.tm, p.due, p.born)
    ensures InsertAfter(Bottom(p), Advance(Bottom(p), None, p.tm, p.tm[t].timeout), t) ==
              EnlistPrio(Bottom(p), t, p.due)
  {
    ScanIs(Bottom(p), None, t, p.tm, p.due, p.born);
  }

  lemma AimedBottomOk(s: Timers, t: Id, slack: nat)
    requires Inv(s, slack) && slack <= 1 && t in s.tm
    ensures var p := Aimed(s, t); |p.rows| > 0 && Scannable(Bottom(p), t, p.tm, p.due, p.born)
  {
    AimedScannable(s, t, slack);
  }

  /** A scan of the bottom row from its head, as if it were the only row. */
  lemma DescentIsLinear(s: Timers, t: Id, h: nat, slack: nat)
    requires Inv(s, slack) && slack <= 1 && t in s.tm && 1 <= h <= |s.rows|
    ensures var g, p := Start(s, t, h, slack), Aimed(s, t);
            && (forall x :: x in Bottom(p) ==> x in p.tm) && |g.rows| > 0
            && Bottom(g) == InsertAfter(Bottom(p), Advance(Bottom(p), None, p.tm, p.tm[t].timeout), t)
  {
    AimedBottomOk(s, t, slack);
    ScanBottom(Aimed(s, t), t);
    StartBottomRow(s, t, h, slack);
  }

  // ------------------------------------------------------------ what is kept

  /** Taking timer t out keeps everything, whether or not it was listed. */
  lemma PulledKeeps(s: Timers, t: Id, slack: nat)
    requires Inv(s, slack) && t in s.tm
    ensures Inv(Pulled(s, t), slack) && t !in Bottom(Pulled(s, t))
    ensures Bottom(Pulled(s, t)) == Without(Bottom(s), t)
  {
    var g := Pulled(s, t);
    forall i | 0 <= i < |s.rows|
      ensures RowOk(g.rows[i], g) && forall x :: x in g.rows[i] <==> x in s.rows[i] && x != t
    {
      assert RowOk(s.rows[i], s);
      WithoutMembers(s.rows[i], t);
      WithoutOrdered(s.rows[i], t, s.due, s.born);
    }
    forall i, j | 0 <= i <= j < |g.rows| ensures Sparser(g.rows[i], g.rows[j]) {
      assert Sparser(s.rows[i], s.rows[j]);
    }
    forall x | x in Bottom(g) ensures TimeOk(g, x, slack) { assert TimeOk(s, x, slack); }
    forall u | u in g.tm ensures Settings(g.tm[u]) { assert Settings(s.tm[u]); }
  }

  /** The row t is entered into. */
  lemma EnteredRow(s: Timers, t: Id, slack: nat, i: nat)
    requires Inv(s, slack) && slack <= 1 && t in s.tm && i < |s.rows|
    ensures var p := Aimed(s, t);
            && t in p.due && (forall w :: w in p.rows[i] ==> w in p.due && w in p.born && w in s.rows[i] && w != t)
            && Distinct(p.rows[i]) && Ordered(p.rows[i], p.due, p.born)
            && Distinct(EnlistPrio(p.rows[i], t, p.due)) && Ordered(EnlistPrio(p.rows[i], t, p.due), p.due, p.born)
            && forall x :: x in EnlistPrio(p.rows[i], t, p.due) <==> x in p.rows[i] || x == t
  {
    var p := Aimed(s, t);
    AimedScannable(s, t, slack);
    assert Scannable(p.rows[i], t, p.tm, p.due, p.born);
    assert RowOk(s.rows[i], s) && Sparser(s.rows[i], Bottom(s));
    WithoutMembers(s.rows[i], t);
    forall w | w in p.rows[i] ensures p.born[w] < p.born[t] { assert TimeOk(s, w, slack); }
    EnlistDistinct(p.rows[i], t, Prio, p.due);
    EnlistOrdered(p.rows[i], t, p.due, p.born);
    EnlistMembers(p.rows[i], t, Prio, p.due);
  }

  lemma StartRows(s: Timers, t: Id, h: nat, slack: nat, i: nat)
    requires Inv(s, slack) && slack <= 1 && t in s.tm && 1 <= h <= |s.rows| && i < |s.rows|
    ensures var g := Start(s, t, h, slack);
            && |g.rows| == |s.rows| && RowOk(g.rows[i], g)
            && forall x :: x in g.rows[i] <==>
                 (x in s.rows[i] && x != t) || (x == t && i + h >= |s.rows|)
  {
    StartFields(s, t, h, slack);
    StartIs(s, t, h, slack, i);
    EnteredRow(s, t, slack, i);
    assert RowOk(s.rows[i], s);
    WithoutMembers(s.rows[i], t);
  }

  lemma StartNested(s: Timers, t: Id, h: nat, slack: nat)
    requires Inv(s, slack) && slack <= 1 && t in s.tm && 1 <= h <= |s.rows|
    ensures var g := Start(s, t, h, slack);
            forall i, j :: 0 <= i <= j < |g.rows| ==> Sparser(g.rows[i], g.rows[j])
  {
    var g := Start(s, t, h, slack);
    StartFields(s, t, h, slack);
    forall i, j | 0 <= i <= j < |g.rows| ensures Sparser(g.rows[i], g.rows[j]) {
      StartRows(s, t, h, slack, i);
      StartRows(s, t, h, slack, j);
      assert Sparser(s.rows[i], s.rows[j]);
    }
  }

  lemma RowsWithoutLast(rows: seq<seq<Id>>, t: Id)
    requires |rows| > 0
    ensures RowsWithout(rows, t)[|rows| - 1] == Without(rows[|rows| - 1], t)
  {
  }

  lemma AimedBottom(s: Timers, t: Id)
    requires |s.rows| > 0 && t in s.tm
    ensures var p := Aimed(s, t);
            && |p.rows| == |s.rows| && Bottom(p) == Without(Bottom(s), t) && p.due == s.due[t := s.now + s.tm[t].init]
  {
    RowsWithoutLast(s.rows, t);
  }

  lemma StartMembers(s: Timers, t: Id, h: nat, slack: nat)
    requires Inv(s, slack) && slack <= 1 && t in s.tm && 1 <= h <= |s.rows|
    ensures var g := Start(s, t, h, slack); |g.rows| == |s.rows| && forall x ::
              x in Bottom(g) <==> x in Bottom(s) || x == t
  {
    StartRows(s, t, h, slack, |s.rows| - 1);
  }

  lemma StartBottom(s: Timers, t: Id, h: nat, slack: nat)
    requires Inv(s, slack) && slack <= 1 && t in s.tm && 1 <= h <= |s.rows|
    ensures var g := Start(s, t, h, slack);
            && |g.rows| == |s.rows| && (forall x :: x in Bottom(g) <==> x in Bottom(s) || x == t)
            && t in g.due && (forall w :: w in Without(Bottom(s), t) ==> w in g.due)
            && Bottom(g) == EnlistPrio(Without(Bottom(s), t), t, g.due)
            && g.due[t] == s.now + s.tm[t].init && forall x ::
                x in s.due && x != t ==> x in g.due && g.due[x] == s.due[x]
  {
    AimedBottom(s, t);
    StartFields(s, t, h, slack);
    StartMembers(s, t, h, slack);
    StartBottomRow(s, t, h, slack);
  }

  lemma StartListed(s: Timers, t: Id, h: nat, slack: nat)
    requires Inv(s, slack) && slack <= 1 && t in s.tm && 1 <= h <= |s.rows|
    ensures var g := Start(s, t, h, slack);
            && |g.rows| > 0
            && (forall u :: u in g.tm ==> Settings(g.tm[u]) && (u in Bottom(g) <==> g.tm[u].active))
            && (forall x :: x in Bottom(g) ==> x in g.tm && x in g.due && x in g.born && TimeOk(g, x, slack))
  {
    var g := Start(s, t, h, slack);
    StartBottom(s, t, h, slack);
    StartFields(s, t, h, slack);
    assert Settings(s.tm[t]);
    forall u | u in g.tm ensures Settings(g.tm[u]) && (u in Bottom(g) <==> g.tm[u].active) { assert Settings(s.tm[u]); }
    forall x | x in Bottom(g) ensures TimeOk(g, x, slack) {
      if x != t { assert TimeOk(s, x, slack); }
    }
  }

  /** rt_timer_start keeps every row in order, the rows nested and the flags right. */
  lemma StartKeeps(s: Timers, t: Id, h: nat, slack: nat)
    requires Inv(s, slack) && slack <= 1 && t in s.tm && 1 <= h <= |s.rows|
    ensures Inv(Start(s, t, h, slack), slack)
  {
    var g := Start(s, t, h, slack);
    StartNested(s, t, h, slack);
    StartListed(s, t, h, slack);
    StartFields(s, t, h, slack);
    forall i | 0 <= i < |g.rows| ensures RowOk(g.rows[i], g) { StartRows(s, t, h, slack, i); }
  }
}
