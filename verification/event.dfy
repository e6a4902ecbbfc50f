/** The event set of ipc.c: threads wait for all or any of some bits. */
module EventSpec {
  import opened IpcList

  /** A 32-bit event word, as the set of its one bits: `&`, `|` and `& ~` are
      intersection, union and difference. */
  type Bits = set<nat>

  /** The option flags RT_EVENT_FLAG_AND, RT_EVENT_FLAG_OR, RT_EVENT_FLAG_CLEAR. */
  datatype Choice = Choice(all: bool, any: bool, clear: bool)

  /** `event_set` and `event_info` of a thread. */
  datatype Want = Want(bits: Bits, choice: Choice)

  datatype Event = Event(pending: Bits, ws: seq<Tid>, want: map<Tid, Want>, prio: map<Tid, nat>)

  datatype Status = Received(bits: Bits) | Failed | TimedOut | Suspended

  predicate Satisfied(w: Want, pending: Bits) {
    if w.choice.all then w.bits <= pending else w.choice.any && w.bits * pending != {}
  }

  /** What is left after a receiver took `bits`. */
  function Cleared(pending: Bits, choice: Choice, bits: Bits): Bits {
    if choice.clear then pending - bits else pending
  }

  ghost predicate Known(e: Event) {
    Distinct(e.ws) && forall w :: w in e.ws ==> w in e.want && w in e.prio
  }

  /** The pass of rt_event_send over the waiters: who stays, the set left, the
      threads' `event_set`, and who is resumed. */
  datatype Swept = Swept(ws: seq<Tid>, pending: Bits, want: map<Tid, Want>, woken: seq<Tid>)

  function Sweep(ws: seq<Tid>, pending: Bits, want: map<Tid, Want>): Swept
    requires Distinct(ws) && forall w :: w in ws ==> w in want
  {
    if ws == [] then Swept([], pending, want, [])
    else
      var t := ws[0];
      if Satisfied(want[t], pending) then
        var bits := want[t].bits * pending;
        var s := Sweep(ws[1..], Cleared(pending, want[t].choice, bits), want[t := want[t].(bits := bits)]);
        s.(woken := [t] + s.woken)
      else
        var s := Sweep(ws[1..], pending, want);
        s.(ws := [t] + s.ws)
  }

  /** rt_event_send: the new state and the threads resumed. */
  function Send(e: Event, bits: Bits): (Event, seq<Tid>)
    requires Known(e)
  {
    if bits == {} then (e, [])
    else
      var s := Sweep(e.ws, e.pending + bits, e.want);
      (e.(pending := s.pending, ws := s.ws, want := s.want), s.woken)
  }

  /** rt_event_recv; `wait` says that the timeout is not zero. */
  function Recv(e: Event, t: Tid, bits: Bits, choice: Choice, flag: Flag, wait: bool): (Event, Status)
    requires Known(e) && t in e.prio
  {
    if bits == {} then (e, Failed)
    else if Satisfied(Want(bits, choice), e.pending) then
      (e.(pending := Cleared(e.pending, choice, bits)), Received(e.pending * bits))
    else if !wait then (e, TimedOut)
    else (e.(ws := Enlist(e.ws, t, flag, e.prio), want := e.want[t := Want(bits, choice)]), Suspended)
  }

  /** rt_thread_timeout of a waiting thread. */
  function Expire(e: Event, t: Tid): Event {
    e.(ws := Without(e.ws, t))
  }

  /** rt_event_control with RT_IPC_CMD_RESET. */
  function Reset(e: Event): Event {
    e.(ws := [], pending := {})
  }

  /** No thread waits for what is already there. */
  ghost predicate Quiet(e: Event)
    requires Known(e)
  {
    forall w :: w in e.ws ==> !Satisfied(e.want[w], e.pending)
  }

  // --------------------------------------------------------------- the pass

  /** A condition that holds of a set holds of every larger one. */
  lemma SatisfiedGrows(w: Want, small: Bits, large: Bits)
    requires small <= large && Satisfied(w, small)
    ensures Satisfied(w, large)
  {
  }

  lemma ClearedShrinks(pending: Bits, choice: Choice, bits: Bits)
    ensures Cleared(pending, choice, bits) <= pending
  {
  }

  /** The pass only removes bits; the waiters are split in two; threads that stay
      keep what they wait for. */
  lemma {:induction false} SweepParts(ws: seq<Tid>, pending: Bits, want: map<Tid, Want>)
    requires Distinct(ws) && forall w :: w in ws ==> w in want
    ensures var s := Sweep(ws, pending, want);
            && s.pending <= pending
            && (forall w :: w in s.ws ==> w in ws)
            && (forall w :: w in s.woken ==> w in ws)
            && (forall w :: w in ws ==> w in s.ws || w in s.woken)
            && (forall w :: w in s.woken ==> w !in s.ws)
            && Distinct(s.ws)
            && s.want.Keys == want.Keys
            && (forall w :: w in want && w !in s.woken ==> s.want[w] == want[w])
  {
    if ws != [] {
      var t := ws[0];
      assert ws == [t] + ws[1..];
      if Satisfied(want[t], pending) {
        var bits := want[t].bits * pending;
        ClearedShrinks(pending, want[t].choice, bits);
        var pending' := Cleared(pending, want[t].choice, bits);
        var want' := want[t := want[t].(bits := bits)];
        SweepParts(ws[1..], pending', want');
      } else {
        SweepParts(ws[1..], pending, want);
        var s := Sweep(ws[1..], pending, want);
        assert ([t] + s.ws)[1..] == s.ws;
      }
    }
  }

  /** One pass is enough: since clearing only shrinks the set, nobody who was
      passed over is satisfied afterwards. */
  lemma {:induction false} SweepLeavesQuiet(ws: seq<Tid>, pending: Bits, want: map<Tid, Want>)
    requires Distinct(ws) && forall w :: w in ws ==> w in want
    ensures NoneSatisfied(Sweep(ws, pending, want))
  {
    if ws != [] {
      var t := ws[0];
      assert ws == [t] + ws[1..];
      if Satisfied(want[t], pending) {
        var bits := want[t].bits * pending;
        SweepLeavesQuiet(ws[1..], Cleared(pending, want[t].choice, bits), want[t := want[t].(bits := bits)]);
      } else {
        SweepLeavesQuiet(ws[1..], pending, want);
        PassedOverStaysQuiet(t, ws[1..], pending, want);
      }
    }
  }

  ghost predicate NoneSatisfied(s: Swept) {
    forall w :: w in s.ws ==> w in s.want && !Satisfied(s.want[w], s.pending)
  }

  lemma PassedOverStaysQuiet(t: Tid, ws: seq<Tid>, pending: Bits, want: map<Tid, Want>)
    requires Distinct(ws) && t !in ws && t in want && (forall w :: w in ws ==> w in want)
    requires !Satisfied(want[t], pending)
    ensures var s := Sweep(ws, pending, want);
            t in s.want && !Satisfied(s.want[t], s.pending)
  {
    SweepParts(ws, pending, want);
    var s := Sweep(ws, pending, want);
    if Satisfied(want[t], s.pending) { SatisfiedGrows(want[t], s.pending, pending); }
  }

  lemma {:induction false} SweepConcat(a: seq<Tid>, b: seq<Tid>, pending: Bits, want: map<Tid, Want>)
    requires Distinct(a + b) && Distinct(a) && Distinct(b)
    requires (forall w :: w in a + b ==> w in want) && (forall w :: w in a ==> w in want)
    requires forall w :: w in b ==> w in Sweep(a, pending, want).want
    ensures var s := Sweep(a, pending, want);
            var r := Sweep(b, s.pending, s.want);
            Sweep(a + b, pending, want) == Swept(s.ws + r.ws, r.pending, r.want, s.woken + r.woken)
  {
    if a == [] {
      assert a + b == b;
    } else {
      var t := a[0];
      assert (a + b)[1..] == a[1..] + b;
      if Satisfied(want[t], pending) {
        var bits := want[t].bits * pending;
        SweepConcat(a[1..], b, Cleared(pending, want[t].choice, bits), want[t := want[t].(bits := bits)]);
      } else {
        SweepConcat(a[1..], b, pending, want);
      }
    }
  }

  /** One more waiter at the end of the pass. */
  lemma SweepSnoc(a: seq<Tid>, t: Tid, pending: Bits, want: map<Tid, Want>)
    requires Distinct(a + [t]) && forall w :: w in a + [t] ==> w in want
    ensures Distinct(a) && forall w :: w in a ==> w in want
    ensures var s := Sweep(a, pending, want);
            t in s.want &&
            Sweep(a + [t], pending, want) ==
              if Satisfied(s.want[t], s.pending) then
                var bits := s.want[t].bits * s.pending;
                Swept(s.ws, Cleared(s.pending, s.want[t].choice, bits), s.want[t := s.want[t].(bits := bits)],
                    s.woken + [t])
              else s.(ws := s.ws + [t])
  {
    DistinctParts(a, [t]);
    SweepParts(a, pending, want);
    SweepConcat(a, [t], pending, want);
    var s := Sweep(a, pending, want);
    assert [t][1..] == [];
    assert Sweep([], s.pending, s.want) == Swept([], s.pending, s.want, []);
    assert s.ws + [] == s.ws && s.woken + [] == s.woken;
    assert [t] + [] == [t];
  }

  lemma {:induction false} DistinctParts(a: seq<Tid>, b: seq<Tid>)
    requires Distinct(a + b)
    ensures Distinct(a) && Distinct(b)
  {
    if a != [] {
      assert (a + b)[1..] == a[1..] + b;
      DistinctParts(a[1..], b);
      assert a[0] !in a[1..];
    } else {
      assert a + b == b;
    }
  }

  /** Without RT_EVENT_FLAG_CLEAR the order of the waiters is immaterial: exactly
      those satisfied by the whole set are resumed. */
  lemma {:induction false} SweepWithoutClear(ws: seq<Tid>, pending: Bits, want: map<Tid, Want>)
    requires Distinct(ws) && forall w :: w in ws ==> w in want && !want[w].choice.clear
    ensures var s := Sweep(ws, pending, want);
            s.pending == pending && forall w :: w in ws ==> (w in s.woken <==> Satisfied(want[w], pending))
  {
    if ws != [] {
      var t := ws[0];
      assert ws == [t] + ws[1..];
      if Satisfied(want[t], pending) {
        SweepWithoutClear(ws[1..], pending, want[t := want[t].(bits := want[t].bits * pending)]);
      } else {
        SweepWithoutClear(ws[1..], pending, want);
        SweepParts(ws[1..], pending, want);
      }
    }
  }

  // ------------------------------------------------- what the two options mean

  /** rt_event_recv serves a thread at once exactly when all of its bits are set, under
      RT_EVENT_FLAG_AND, or some of them, under RT_EVENT_FLAG_OR alone. */
  lemma RecvServesIff(e: Event, t: Tid, bits: Bits, choice: Choice, flag: Flag, wait: bool)
    requires Known(e) && t in e.prio && bits != {}
    ensures var st := Recv(e, t, bits, choice, flag, wait).1;
            && (choice.all ==> (st.Received? <==> bits <= e.pending))
            && (!choice.all && choice.any ==> (st.Received? <==> exists i :: i in bits && i in e.pending))
            && (!st.Received? ==> st == if wait then Suspended else TimedOut)
  {
    if i :| i in bits && i in e.pending { assert i in bits * e.pending; }
    if x :| x in bits * e.pending { assert x in bits && x in e.pending; }
  }

  /** The thread gets the bits asked for that are set; RT_EVENT_FLAG_CLEAR takes just
      those out of the set. Otherwise the set stays, and a thread that waits is listed
      with what it asked for. */
  lemma RecvTakes(e: Event, t: Tid, bits: Bits, choice: Choice, flag: Flag, wait: bool)
    requires Known(e) && t in e.prio && t !in e.ws
    ensures var (g, st) := Recv(e, t, bits, choice, flag, wait);
            && (bits == {} <==> st == Failed) && g.prio == e.prio
            && (st.Received? ==>
                  && (forall i :: i in st.bits <==> i in bits && i in e.pending)
                  && (forall i :: i in g.pending <==> i in e.pending && !(choice.clear && i in bits))
                  && g.ws == e.ws && g.want == e.want)
            && (!st.Received? ==> g.pending == e.pending)
            && (st == Suspended ==>
                  && multiset(g.ws) == multiset(e.ws) + multiset{t} && t in g.want && g.want[t] == Want(bits, choice)
                  && forall x :: x in e.want && x != t ==> x in g.want && g.want[x] == e.want[x])
            && (st == TimedOut || st == Failed ==> g == e)
  {
    EnlistAdds(e.ws, t, flag, e.prio);
  }

  /** The bits set when the pass of a send comes to the i-th waiter. */
  ghost function SetAt(e: Event, bits: Bits, i: nat): Bits
    requires Known(e) && i <= |e.ws|
  {
    PassParts(e.ws, i, e.pending + bits, e.want);
    Sweep(e.ws[..i], e.pending + bits, e.want).pending
  }

  /** The pass starts with all bits sent, and a send leaves what its end leaves. */
  lemma SetAtEnds(e: Event, bits: Bits)
    requires Known(e)
    ensures SetAt(e, bits, 0) == e.pending + bits
    ensures Send(e, bits).0.pending == if bits == {} then e.pending else SetAt(e, bits, |e.ws|)
  {
    assert e.ws[..|e.ws|] == e.ws;
  }

  /** A send resumes the i-th waiter exactly when all of its bits are set by then, or
      some of them. It gets those, RT_EVENT_FLAG_CLEAR takes just those out of the set,
      and a thread not resumed waits on for what it asked for. */
  lemma SendServesIff(e: Event, bits: Bits, i: nat)
    requires Known(e) && bits != {} && i < |e.ws|
    ensures var (g, woken) := Send(e, bits);
            var w, p, q := e.ws[i], SetAt(e, bits, i), SetAt(e, bits, i + 1);
            var want := e.want[w];
            && (want.choice.all ==> (w in woken <==> want.bits <= p))
            && (!want.choice.all && want.choice.any ==> (w in woken <==> exists j :: j in want.bits && j in p))
            && w in g.want && (w in g.ws <==> w !in woken)
            && (w !in woken ==> q == p && g.want[w] == want)
            && (w in woken ==>
                  && (forall j :: j in g.want[w].bits <==> j in want.bits && j in p)
                  && (forall j :: j in q <==> j in p && !(want.choice.clear && j in want.bits)))
  {
    var w, s := e.ws[i], SweptTo(e, bits, i);
    SendAt(e, bits, i);
    if j :| j in e.want[w].bits && j in s.pending { assert j in e.want[w].bits * s.pending; }
    if x :| x in e.want[w].bits * s.pending { assert x in e.want[w].bits && x in s.pending; }
  }

  ghost function SweptTo(e: Event, bits: Bits, i: nat): Swept
    requires Known(e) && i <= |e.ws|
  {
    PassParts(e.ws, i, e.pending + bits, e.want);
    Sweep(e.ws[..i], e.pending + bits, e.want)
  }

  /** The turn of the i-th waiter, and what the rest of the pass leaves of it. */
  lemma SendAt(e: Event, bits: Bits, i: nat)
    requires Known(e) && bits != {} && i < |e.ws|
    ensures var w, p := e.ws[i], SweptTo(e, bits, i).pending;
            var got := e.want[w].bits * p;
            var yes := Satisfied(e.want[w], p);
            var (g, woken) := Send(e, bits);
            && SweptTo(e, bits, i + 1).pending == (if yes then Cleared(p, e.want[w].choice, got) else p)
            && w in g.want && g.want[w] == (if yes then e.want[w].(bits := got) else e.want[w])
            && (w in woken <==> yes) && (w in g.ws <==> !yes)
  {
    var w, p, ws := e.ws[i], e.pending + bits, e.ws;
    var a, b := ws[..i], ws[i + 1..];
    assert ws == a + [w] + b && ws[..i + 1] == a + [w];
    DistinctParts(a + [w], b);
    NotBefore(a, w, b);
    NotBehind(a, w, b);
    PassParts(ws, i, p, e.want);
    SweepParts(a, p, e.want);
    SweepSnoc(a, w, p, e.want);
    PassParts(ws, i + 1, p, e.want);
    SweepParts(a + [w], p, e.want);
    SweepConcat(a + [w], b, p, e.want);
    var s := Sweep(a + [w], p, e.want);
    SweepParts(b, s.pending, s.want);
  }

  lemma {:induction false} NotBehind(a: seq<Tid>, w: Tid, b: seq<Tid>)
    requires Distinct(a + [w] + b)
    ensures w !in b
  {
    if a == [] {
      assert [] + [w] + b == [w] + b && ([w] + b)[1..] == b;
    } else {
      assert (a + [w] + b)[1..] == a[1..] + [w] + b;
      NotBehind(a[1..], w, b);
    }
  }

  /** A timeout takes the thread out of the list, a reset everybody and all bits. */
  lemma ExpireLeaves(e: Event, t: Tid, a: seq<Tid>, b: seq<Tid>)
    requires Known(e) && e.ws == a + [t] + b
    ensures Expire(e, t) == e.(ws := a + b) && Reset(e).ws == [] && Reset(e).pending == {}
  {
    NotBefore(a, t, b);
    WithoutSplits(a, t, b);
  }

  // ------------------------------------------------------------- every state

  lemma SendKeepsQuiet(e: Event, bits: Bits)
    requires Known(e) && Quiet(e)
    ensures Known(Send(e, bits).0) && Quiet(Send(e, bits).0)
  {
    SweepParts(e.ws, e.pending + bits, e.want);
    SweepLeavesQuiet(e.ws, e.pending + bits, e.want);
  }

  lemma RecvKeepsQuiet(e: Event, t: Tid, bits: Bits, choice: Choice, flag: Flag, wait: bool)
    requires Known(e) && Quiet(e) && t in e.prio && t !in e.ws
    ensures Known(Recv(e, t, bits, choice, flag, wait).0) && Quiet(Recv(e, t, bits, choice, flag, wait).0)
  {
    var g := Recv(e, t, bits, choice, flag, wait).0;
    if bits != {} && Satisfied(Want(bits, choice), e.pending) {
      ClearedShrinks(e.pending, choice, bits);
      forall w | w in g.ws ensures !Satisfied(g.want[w], g.pending) {
        if Satisfied(e.want[w], g.pending) { SatisfiedGrows(e.want[w], g.pending, e.pending); }
      }
    } else if bits != {} && wait {
      EnlistMembers(e.ws, t, flag, e.prio);
      EnlistDistinct(e.ws, t, flag, e.prio);
    }
  }

  lemma ExpireKeepsQuiet(e: Event, t: Tid)
    requires Known(e) && Quiet(e)
    ensures Known(Expire(e, t)) && Quiet(Expire(e, t))
  {
    WithoutMembers(e.ws, t);
  }

  datatype Op = OpSend(bits: Bits)
              | OpRecv(t: Tid, bits: Bits, choice: Choice, wait: bool)
              | OpExpire(t: Tid)
              | OpReset

  /** Only a running thread calls rt_event_recv. */
  ghost predicate Legal(e: Event, op: Op) {
    op.OpRecv? ==> op.t in e.prio && op.t !in e.ws
  }

  function Step(e: Event, op: Op, flag: Flag): Event
    requires Known(e) && Legal(e, op)
  {
    match op
    case OpSend(bits) => Send(e, bits).0
    case OpRecv(t, bits, choice, wait) => Recv(e, t, bits, choice, flag, wait).0
    case OpExpire(t) => Expire(e, t)
    case OpReset => Reset(e)
  }

  /** States that a run of calls and timeouts goes through. */
  ghost predicate Reaches(e: Event, ops: seq<Op>, flag: Flag, g: Event)
    requires Known(e)
    decreases ops
  {
    if ops == [] then e == g
    else Legal(e, ops[0]) && Known(Step(e, ops[0], flag)) && Reaches(Step(e, ops[0], flag), ops[1..], flag, g)
  }

  /** In every reachable state no suspended thread's condition is satisfied. */
  lemma {:induction false} RunStaysQuiet(e: Event, ops: seq<Op>, flag: Flag, g: Event)
    requires Known(e) && Quiet(e) && Reaches(e, ops, flag, g)
    ensures Known(g) && Quiet(g)
    decreases ops
  {
    if ops != [] {
      match ops[0] {
        case OpSend(bits) => SendKeepsQuiet(e, bits);
        case OpRecv(t, bits, choice, wait) => RecvKeepsQuiet(e, t, bits, choice, flag, wait);
        case OpExpire(t) => ExpireKeepsQuiet(e, t);
        case OpReset =>
      }
      RunStaysQuiet(Step(e, ops[0], flag), ops[1..], flag, g);
    }
  }

  // ------------------------------------- waiting and being sent, or the reverse

  /** The bits a thread ends up with: at once, or from the send that resumed it. */
  function Outcome(st: Status, e: Event, woken: seq<Tid>, t: Tid): Status
    requires Known(e)
  {
    if st == Suspended && t in woken && t in e.want then Received(e.want[t].bits) else st
  }

  /** t starts to wait for w and the bits are sent then: what t ends up with, and
      the set left. */
  ghost function BlockThenSend(e: Event, t: Tid, w: Want, flag: Flag, sent: Bits): (Status, Bits)
    requires Known(e) && t in e.prio && t !in e.ws
  {
    RecvKeepsKnown(e, t, w, flag);
    var (e1, st) := Recv(e, t, w.bits, w.choice, flag, true);
    SendKeepsKnown(e1, sent);
    var (e2, woken) := Send(e1, sent);
    (Outcome(st, e2, woken, t), e2.pending)
  }

  /** The bits are sent first, and t asks for w then. */
  ghost function SendThenRecv(e: Event, t: Tid, w: Want, flag: Flag, sent: Bits): (Status, Bits)
    requires Known(e) && t in e.prio
  {
    SendKeepsKnown(e, sent);
    var (f, st) := Recv(Send(e, sent).0, t, w.bits, w.choice, flag, true);
    (st, f.pending)
  }

  /** The set when the pass of a send comes to the place t would have in the list,
      and the set when it has gone on from there without t. */
  ghost function SetsAround(e: Event, t: Tid, flag: Flag, sent: Bits): (Bits, Bits)
    requires Known(e) && t in e.prio
  {
    var k := Position(e.ws, t, flag, e.prio);
    PassParts(e.ws, k, e.pending + sent, e.want);
    var s := Sweep(e.ws[..k], e.pending + sent, e.want);
    (s.pending, Sweep(e.ws[k..], s.pending, s.want).pending)
  }

  lemma PassParts(ws: seq<Tid>, k: nat, p: Bits, want: map<Tid, Want>)
    requires k <= |ws| && Distinct(ws) && forall w :: w in ws ==> w in want
    ensures Distinct(ws[..k]) && Distinct(ws[k..]) && ws[..k] + ws[k..] == ws
    ensures forall w :: w in ws[k..] ==> w in Sweep(ws[..k], p, want).want
  {
    assert ws[..k] + ws[k..] == ws;
    DistinctParts(ws[..k], ws[k..]);
    SweepParts(ws[..k], p, want);
  }

  /** Waiting and being sent bits gives a thread what receiving after the send would,
      and leaves the same set, exactly when the waiters that it overtakes clear no
      bit that it takes. */
  lemma BlockThenSendIff(e: Event, t: Tid, w: Want, flag: Flag, sent: Bits)
    requires Known(e) && t in e.prio && t !in e.ws && w.bits != {} && sent != {}
    requires !Satisfied(w, e.pending)
    ensures var (p1, p2) := SetsAround(e, t, flag, sent);
            BlockThenSend(e, t, w, flag, sent) == SendThenRecv(e, t, w, flag, sent) <==>
            !Satisfied(w, p1) || w.bits * p2 == w.bits * p1
  {
    var k := Position(e.ws, t, flag, e.prio);
    var p := e.pending + sent;
    PassParts(e.ws, k, p, e.want);
    var s := Sweep(e.ws[..k], p, e.want);
    SweepConcat(e.ws[..k], e.ws[k..], p, e.want);
    SentFirst(e, t, w, flag, sent, Sweep(e.ws[k..], s.pending, s.want).pending);
    WaitedFirst(e, t, w, flag, sent, k);
    TakenIff(e.ws[k..], s.pending, s.want, w);
  }

  /** What becomes of w before the rest of a pass and behind it. */
  lemma TakenIff(b: seq<Tid>, p1: Bits, want: map<Tid, Want>, w: Want)
    requires Distinct(b) && forall x :: x in b ==> x in want
    ensures var p2 := Sweep(b, p1, want).pending;
            var got := w.bits * p1;
            var early := if Satisfied(w, p1) then (Received(got), Sweep(b, Cleared(p1, w.choice, got), want).pending)
              else (Suspended, p2);
            var late := if Satisfied(w, p2) then (Received(p2 * w.bits), Cleared(p2, w.choice, w.bits))
              else (Suspended, p2);
            early == late <==> !Satisfied(w, p1) || w.bits * p2 == got
  {
    SweepParts(b, p1, want);
    var p2 := Sweep(b, p1, want).pending;
    if !Satisfied(w, p1) {
      if Satisfied(w, p2) { SatisfiedGrows(w, p2, p1); }
    } else if w.bits * p2 == w.bits * p1 {
      var got := w.bits * p1;
      assert p1 * got == got == p2 * got;
      SweepLess(b, p1, got, want, want);
      if w.choice.all { assert got == w.bits; }
      assert Satisfied(w, p2) && p2 * w.bits == got && p2 - got == p2 - w.bits;
    } else {
      assert p2 * w.bits == w.bits * p2;
    }
  }

  /** The order that sends first, from the set that the pass leaves. */
  lemma SentFirst(e: Event, t: Tid, w: Want, flag: Flag, sent: Bits, p2: Bits)
    requires Known(e) && t in e.prio && w.bits != {} && sent != {}
    requires Sweep(e.ws, e.pending + sent, e.want).pending == p2
    ensures SendThenRecv(e, t, w, flag, sent) ==
            if Satisfied(w, p2) then (Received(p2 * w.bits), Cleared(p2, w.choice, w.bits)) else (Suspended, p2)
  {
    SendKeepsKnown(e, sent);
  }

  /** The order that waits first, from the sweep over the two parts of the list. */
  lemma WaitedFirst(e: Event, t: Tid, w: Want, flag: Flag, sent: Bits, k: nat)
    requires Known(e) && t in e.prio && t !in e.ws && w.bits != {} && sent != {} && !Satisfied(w, e.pending)
    requires k == Position(e.ws, t, flag, e.prio)
    ensures Distinct(e.ws[..k]) && Distinct(e.ws[k..])
    ensures var s := Sweep(e.ws[..k], e.pending + sent, e.want);
            && (forall x :: x in e.ws[k..] ==> x in s.want)
            && BlockThenSend(e, t, w, flag, sent) ==
               if Satisfied(w, s.pending)
               then (Received(w.bits * s.pending),
                     Sweep(e.ws[k..], Cleared(s.pending, w.choice, w.bits * s.pending), s.want).pending)
               else (Suspended, Sweep(e.ws[k..], s.pending, s.want).pending)
  {
    var a, b, p := e.ws[..k], e.ws[k..], e.pending + sent;
    PassParts(e.ws, k, p, e.want);
    RecvKeepsKnown(e, t, w, flag);
    EnlistAtPosition(e.ws, t, flag, e.prio);
    var e1 := e.(ws := a + [t] + b, want := e.want[t := w]);
    assert Recv(e, t, w.bits, w.choice, flag, true) == (e1, Suspended);
    SweepAround(a, t, b, p, e.want, w);
    SendKeepsKnown(e1, sent);
  }

  /** The pass over a part of the list with t behind it. */
  lemma SweepTo(a: seq<Tid>, t: Tid, p: Bits, want: map<Tid, Want>, w: Want)
    requires Distinct(a + [t]) && t !in a && forall x :: x in a ==> x in want
    ensures Distinct(a) && forall x :: x in a + [t] ==> x in want[t := w]
    ensures var s := Sweep(a, p, want);
            var r := Sweep(a + [t], p, want[t := w]);
            var got := w.bits * s.pending;
            if Satisfied(w, s.pending)
            then r.pending == Cleared(s.pending, w.choice, got) && r.want == s.want[t := w.(bits := got)] &&
              t in r.woken
            else r.pending == s.pending && r.want == s.want[t := w] && t !in r.woken
  {
    SweepSnoc(a, t, p, want[t := w]);
    SweepIgnores(a, p, want, t, w);
    SweepParts(a, p, want);
    var s := Sweep(a, p, want);
    assert s.want[t := w][t := w.(bits := w.bits * s.pending)] == s.want[t := w.(bits := w.bits * s.pending)];
  }

  /** The pass with t between two parts of the list. */
  lemma SweepAround(a: seq<Tid>, t: Tid, b: seq<Tid>, p: Bits, want: map<Tid, Want>, w: Want)
    requires Distinct(a + [t] + b) && t !in a && t !in b && forall x :: x in a + b ==> x in want
    ensures Distinct(a) && Distinct(b) && forall x :: x in a + [t] + b ==> x in want[t := w]
    ensures forall x :: x in b ==> x in Sweep(a, p, want).want
    ensures var s := Sweep(a, p, want);
            var r := Sweep(a + [t] + b, p, want[t := w]);
            var got := w.bits * s.pending;
            if Satisfied(w, s.pending)
            then t in r.woken && t in r.want && r.want[t].bits == got
                 && r.pending == Sweep(b, Cleared(s.pending, w.choice, got), s.want).pending
            else t !in r.woken && r.pending == Sweep(b, s.pending, s.want).pending
  {
    DistinctParts(a + [t], b);
    SweepTo(a, t, p, want, w);
    SweepParts(a, p, want);
    var s, r := Sweep(a, p, want), Sweep(a + [t], p, want[t := w]);
    SweepConcat(a + [t], b, p, want[t := w]);
    SweepParts(b, r.pending, r.want);
    SweepLess(b, r.pending, {}, r.want, s.want);
    assert r.pending - {} == r.pending;
  }

  /** Bits that a pass leaves alone can be taken out before it, and what others wait
      for does not matter. */
  lemma {:induction false} SweepLess(ws: seq<Tid>, p: Bits, d: Bits, want: map<Tid, Want>, want': map<Tid, Want>)
    requires Distinct(ws) && forall x :: x in ws ==> x in want && x in want' && want[x] == want'[x]
    requires Sweep(ws, p, want).pending * d == p * d
    ensures Sweep(ws, p - d, want').pending == Sweep(ws, p, want).pending - d
  {
    if ws != [] {
      var h := ws[0];
      assert ws == [h] + ws[1..];
      var b, b' := want[h].bits * p, want[h].bits * (p - d);
      var q := if Satisfied(want[h], p) then Cleared(p, want[h].choice, b) else p;
      var next := if Satisfied(want[h], p) then want[h := want[h].(bits := b)] else want;
      var next' := if Satisfied(want[h], p - d) then want'[h := want[h].(bits := b')] else want';
      SweepParts(ws[1..], q, next);
      LessAt(want[h], p, d, q);
      SweepLess(ws[1..], q, d, next, next');
    }
  }

  /** One waiter of such a pass. */
  lemma LessAt(w: Want, p: Bits, d: Bits, q: Bits)
    requires q == if Satisfied(w, p) then Cleared(p, w.choice, w.bits * p) else p
    requires p * d <= q
    ensures q * d == p * d
    ensures q - d == if Satisfied(w, p - d) then Cleared(p - d, w.choice, w.bits * (p - d)) else p - d
  {
    if Satisfied(w, p) && w.choice.clear {
      assert w.bits * p * d == {} by {
        assert w.bits * p * d <= p * d <= p - w.bits * p;
      }
      assert w.bits * (p - d) == w.bits * p;
      if w.choice.all { assert w.bits * p == w.bits; }
      assert p - w.bits * p - d == p - d - w.bits * p;
    } else if Satisfied(w, p - d) {
      SatisfiedGrows(w, p - d, p);
    }
  }

  /** A thread that joins the end of the list and is then sent bits gets what it
      would have got by receiving after the send; it leaves the same set and the
      same waiters. */
  lemma BlockThenSendAtEnd(e: Event, t: Tid, w: Want, flag: Flag, sent: Bits)
    requires Known(e) && t in e.prio && t !in e.ws && w.bits != {} && sent != {}
    requires !Satisfied(w, e.pending)
    requires flag == Fifo || forall x :: x in e.ws ==> e.prio[x] <= e.prio[t]
    ensures BlockThenSend(e, t, w, flag, sent) == SendThenRecv(e, t, w, flag, sent)
    ensures Known(Recv(e, t, w.bits, w.choice, flag, true).0) && Known(Send(e, sent).0)
    ensures Known(Send(Recv(e, t, w.bits, w.choice, flag, true).0, sent).0)
    ensures var (e1, st1) := Recv(e, t, w.bits, w.choice, flag, true);
            var (e2, woken) := Send(e1, sent);
            var (f2, st2) := Recv(Send(e, sent).0, t, w.bits, w.choice, flag, true);
            && e2.pending == f2.pending && Outcome(st1, e2, woken, t) == st2
            && e2.ws == Send(e, sent).0.ws + (if st2 == Suspended then [t] else [])
  {
    LastPositionIff(e.ws, t, flag, e.prio);
    BlockThenSendIff(e, t, w, flag, sent);
    EnlistAtPosition(e.ws, t, flag, e.prio);
    assert e.ws[..|e.ws|] + [t] + e.ws[|e.ws|..] == e.ws + [t];
    SentAtEnd(e, t, w, flag, sent);
  }

  lemma SentAtEnd(e: Event, t: Tid, w: Want, flag: Flag, sent: Bits)
    requires Known(e) && t in e.prio && t !in e.ws && w.bits != {} && sent != {}
    requires Enlist(e.ws, t, flag, e.prio) == e.ws + [t]
    requires !Satisfied(w, e.pending)
    ensures Known(Recv(e, t, w.bits, w.choice, flag, true).0) && Known(Send(e, sent).0)
    ensures Known(Send(Recv(e, t, w.bits, w.choice, flag, true).0, sent).0)
    ensures var (e1, st1) := Recv(e, t, w.bits, w.choice, flag, true);
            var (e2, woken) := Send(e1, sent);
            var (f2, st2) := Recv(Send(e, sent).0, t, w.bits, w.choice, flag, true);
            && e2.pending == f2.pending && Outcome(st1, e2, woken, t) == st2
            && e2.ws == Send(e, sent).0.ws + (if st2 == Suspended then [t] else [])
  {
    var e1 := e.(ws := e.ws + [t], want := e.want[t := w]);
    assert Recv(e, t, w.bits, w.choice, flag, true) == (e1, Suspended);
    EnlistDistinct(e.ws, t, flag, e.prio);
    SendAfterBlock(e, t, w, sent);
    SendKeepsKnown(e, sent);
    SendKeepsKnown(e1, sent);
    SweepParts(e.ws, e.pending + sent, e.want);
    var s := Sweep(e.ws, e.pending + sent, e.want);
    if Satisfied(w, s.pending) {
      TakesSame(w, s.pending);
    }
  }

  lemma RecvKeepsKnown(e: Event, t: Tid, w: Want, flag: Flag)
    requires Known(e) && t in e.prio && t !in e.ws
    ensures Known(Recv(e, t, w.bits, w.choice, flag, true).0)
  {
    EnlistMembers(e.ws, t, flag, e.prio);
    EnlistDistinct(e.ws, t, flag, e.prio);
  }

  /** By priority a newcomer may overtake, and then the two orders differ: thread 1,
      more urgent, takes the bit that thread 2 would have taken and cleared. */
  lemma OvertakerTakesMore()
    ensures var w := Want({0}, Choice(false, true, true));
            var e := Event({}, [2], map[2 := w], map[1 := 3, 2 := 8]);
            && Known(e) && Quiet(e)
            && BlockThenSend(e, 1, w, Prio, {0}) == (Received({0}), {})
            && SendThenRecv(e, 1, w, Prio, {0}) == (Suspended, {})
  {
    var w := Want({0}, Choice(false, true, true));
    var e := Event({}, [2], map[2 := w], map[1 := 3, 2 := 8]);
    assert [2][1..] == [] && [1, 2][1..] == [2];
    var e1 := e.(ws := [1, 2], want := e.want[1 := w]);
    assert Enlist([2], 1, Prio, e.prio) == [1] + [2] == [1, 2];
    assert Recv(e, 1, {0}, w.choice, Prio, true) == (e1, Suspended);
    OneSweep(e.want);
    TwoSweep(e1.want);
    SendKeepsKnown(e1, {0});
    assert {} + {0} == {0};
  }

  lemma OneSweep(want: map<Tid, Want>)
    requires 2 in want && want[2] == Want({0}, Choice(false, true, true))
    ensures var s := Sweep([2], {0}, want); s.pending == {} && s.woken == [2] && s.ws == []
  {
    assert [2][1..] == [] && {0} * {0} == {0} && {0} - {0} == {};
  }

  lemma TwoSweep(want: map<Tid, Want>)
    requires 1 in want && 2 in want && want[1] == want[2] == Want({0}, Choice(false, true, true))
    ensures var s := Sweep([1, 2], {0}, want);
            1 in s.woken && 1 in s.want && s.want[1].bits == {0} && s.ws == [2] && s.pending == {}
  {
    var w := want[1];
    assert [1, 2][1..] == [2] && [2][1..] == [] && {0} * {0} == {0} && {0} - {0} == {};
    var want' := want[1 := w.(bits := {0})];
    var none: Bits := {};
    assert !Satisfied(want'[2], none);
    assert Sweep([], none, want') == Swept([], none, want', []);
    var r := Sweep([2], none, want');
    assert r.ws == [2] + [] == [2];
  }

  lemma SendKeepsKnown(e: Event, bits: Bits)
    requires Known(e)
    ensures Known(Send(e, bits).0)
  {
    SweepParts(e.ws, e.pending + bits, e.want);
  }

  /** The send with t at the end of the list, in terms of the send without it. */
  lemma SendAfterBlock(e: Event, t: Tid, w: Want, sent: Bits)
    requires Known(e) && t in e.prio && t !in e.ws && sent != {} && Distinct(e.ws + [t])
    ensures var e1 := e.(ws := e.ws + [t], want := e.want[t := w]);
            var s := Sweep(e.ws, e.pending + sent, e.want);
            Known(e1) &&
            Send(e1, sent) ==
              if Satisfied(w, s.pending) then
                var got := w.bits * s.pending;
                (e.(pending := Cleared(s.pending, w.choice, got), ws := s.ws, want := s.want[t := w.(bits := got)]),
                    s.woken + [t])
              else (e.(pending := s.pending, ws := s.ws + [t], want := s.want[t := w]), s.woken)
  {
    var want := e.want[t := w];
    SweepSnoc(e.ws, t, e.pending + sent, want);
    SweepIgnores(e.ws, e.pending + sent, e.want, t, w);
    var s := Sweep(e.ws, e.pending + sent, e.want);
    var v := w.(bits := w.bits * s.pending);
    assert s.want[t := w][t := v] == s.want[t := v];
  }

  lemma TakesSame(w: Want, pending: Bits)
    requires Satisfied(w, pending)
    ensures pending * w.bits == w.bits * pending
    ensures Cleared(pending, w.choice, w.bits * pending) == Cleared(pending, w.choice, w.bits)
  {
    assert pending - w.bits * pending == pending - w.bits;
  }

  /** The wish of a thread that is not listed plays no part in the pass. */
  lemma {:induction false} SweepIgnores(ws: seq<Tid>, pending: Bits, want: map<Tid, Want>, t: Tid, w: Want)
    requires Distinct(ws) && t !in ws && forall x :: x in ws ==> x in want
    ensures var s := Sweep(ws, pending, want);
            Sweep(ws, pending, want[t := w]) == s.(want := s.want[t := w])
  {
    if ws != [] {
      var h := ws[0];
      assert ws == [h] + ws[1..];
      if Satisfied(want[h], pending) {
        var bits := want[h].bits * pending;
        var want' := want[h := want[h].(bits := bits)];
        SweepIgnores(ws[1..], Cleared(pending, want[h].choice, bits), want', t, w);
        assert want[t := w][h := want[h].(bits := bits)] == want'[t := w];
      } else {
        SweepIgnores(ws[1..], pending, want, t, w);
      }
    }
  }
}
