/** The lists of suspended threads in ipc.c. */
module IpcList {
  type Tid = nat

  /** RT_IPC_FLAG_FIFO, RT_IPC_FLAG_PRIO. */
  datatype Flag = Fifo | Prio

  /** The list after rt_ipc_list_suspend: at the end, or in front of the first
      strictly less urgent thread (a larger number is less urgent). */
  function Enlist(ws: seq<Tid>, t: Tid, flag: Flag, prio: map<Tid, nat>): seq<Tid>
    requires t in prio && forall w :: w in ws ==> w in prio
  {
    if flag == Fifo then ws + [t] else EnlistPrio(ws, t, prio)
  }

  function EnlistPrio(ws: seq<Tid>, t: Tid, prio: map<Tid, nat>): seq<Tid>
    requires t in prio && forall w :: w in ws ==> w in prio
  {
    if ws == [] then [t]
    else if prio[t] < prio[ws[0]] then [t] + ws
    else [ws[0]] + EnlistPrio(ws[1..], t, prio)
  }

  /** How many waiters stay in front of the newcomer. */
  function Position(ws: seq<Tid>, t: Tid, flag: Flag, prio: map<Tid, nat>): (k: nat)
    requires t in prio && forall w :: w in ws ==> w in prio
    ensures k <= |ws|
    decreases |ws|
  {
    if flag == Fifo then |ws|
    else if ws == [] || prio[t] < prio[ws[0]] then 0
    else 1 + Position(ws[1..], t, flag, prio)
  }

  lemma {:induction false} EnlistAtPosition(ws: seq<Tid>, t: Tid, flag: Flag, prio: map<Tid, nat>)
    requires t in prio && forall w :: w in ws ==> w in prio
    ensures var k := Position(ws, t, flag, prio); Enlist(ws, t, flag, prio) == ws[..k] + [t] + ws[k..]
    decreases |ws|
  {
    if flag == Prio && ws != [] && prio[t] >= prio[ws[0]] {
      var k := Position(ws[1..], t, flag, prio);
      EnlistAtPosition(ws[1..], t, flag, prio);
      assert ws[..k + 1] == [ws[0]] + ws[1..][..k];
    }
  }

  /** By priority the newcomer stands behind those at least as urgent that come first,
      and right in front of a strictly less urgent one. */
  lemma {:induction false} PositionSays(ws: seq<Tid>, t: Tid, flag: Flag, prio: map<Tid, nat>)
    requires t in prio && forall w :: w in ws ==> w in prio
    ensures var k := Position(ws, t, flag, prio);
            && Enlist(ws, t, flag, prio) == ws[..k] + [t] + ws[k..]
            && (flag == Fifo ==> k == |ws|)
            && (flag == Prio ==>
                  (forall w :: w in ws[..k] ==> prio[w] <= prio[t]) && (k < |ws| ==> prio[t] < prio[ws[k]]))
    decreases |ws|
  {
    EnlistAtPosition(ws, t, flag, prio);
    if flag == Prio && ws != [] && prio[t] >= prio[ws[0]] {
      var k := Position(ws[1..], t, flag, prio);
      PositionSays(ws[1..], t, flag, prio);
      assert ws[..k + 1] == [ws[0]] + ws[1..][..k];
    }
  }

  /** The newcomer goes to the end unless it is more urgent than some waiter and
      the list is kept by priority. */
  lemma {:induction false} LastPositionIff(ws: seq<Tid>, t: Tid, flag: Flag, prio: map<Tid, nat>)
    requires t in prio && forall w :: w in ws ==> w in prio
    ensures Position(ws, t, flag, prio) == |ws| <==> flag == Fifo || forall w :: w in ws ==> prio[w] <= prio[t]
    decreases |ws|
  {
    if flag == Prio && ws != [] {
      assert ws == [ws[0]] + ws[1..];
      LastPositionIff(ws[1..], t, flag, prio);
    }
  }

  lemma {:induction false} EnlistPrioSkip(a: seq<Tid>, b: seq<Tid>, t: Tid, prio: map<Tid, nat>)
    requires t in prio && (forall w :: w in a + b ==> w in prio) && (forall w :: w in a ==> prio[w] <= prio[t])
    ensures EnlistPrio(a + b, t, prio) == a + EnlistPrio(b, t, prio)
  {
    if a == [] {
      assert a + b == b;
    } else {
      assert (a + b)[1..] == a[1..] + b;
      assert a[0] in a;
      EnlistPrioSkip(a[1..], b, t, prio);
    }
  }

  /** rt_ipc_list_suspend. */
  method ListSuspend(ws: seq<Tid>, t: Tid, flag: Flag, prio: map<Tid, nat>) returns (r: seq<Tid>)
    requires t in prio && forall w :: w in ws ==> w in prio
    ensures r == Enlist(ws, t, flag, prio)
  {
    match flag {
      case Fifo =>
        r := ws + [t];
      case Prio =>
        var n := 0;
        while n < |ws|
          invariant n <= |ws| && forall w :: w in ws[..n] ==> prio[w] <= prio[t]
        {
          if prio[t] < prio[ws[n]] {
            EnlistPrioSkip(ws[..n], ws[n..], t, prio);
            assert ws[..n] + ws[n..] == ws;
            return ws[..n] + [t] + ws[n..];
          }
          assert ws[..n + 1] == ws[..n] + [ws[n]];
          n := n + 1;
        }
        assert ws[..n] == ws && ws + [] == ws;
        EnlistPrioSkip(ws, [], t, prio);
        r := ws + [t];
    }
  }

  /** Exactly one more thread waits. */
  lemma {:induction false} EnlistAdds(ws: seq<Tid>, t: Tid, flag: Flag, prio: map<Tid, nat>)
    requires t in prio && forall w :: w in ws ==> w in prio
    ensures multiset(Enlist(ws, t, flag, prio)) == multiset(ws) + multiset{t}
    decreases |ws|
  {
    if flag == Prio && ws != [] && prio[t] >= prio[ws[0]] {
      EnlistAdds(ws[1..], t, flag, prio);
      assert ws == [ws[0]] + ws[1..];
    }
  }

  lemma EnlistMembers(ws: seq<Tid>, t: Tid, flag: Flag, prio: map<Tid, nat>)
    requires t in prio && forall w :: w in ws ==> w in prio
    ensures forall w :: w in Enlist(ws, t, flag, prio) <==> w in ws || w == t
    ensures |Enlist(ws, t, flag, prio)| == |ws| + 1
  {
    EnlistAdds(ws, t, flag, prio);
    forall w ensures w in Enlist(ws, t, flag, prio) <==> w in ws || w == t {
      assert w in Enlist(ws, t, flag, prio) <==> w in multiset(Enlist(ws, t, flag, prio));
      assert w in ws <==> w in multiset(ws);
    }
    assert |multiset(ws) + multiset{t}| == |ws| + 1;
  }

  // ------------------------------------------------------- order of the list

  ghost predicate Distinct(ws: seq<Tid>) {
    ws == [] || (ws[0] !in ws[1..] && Distinct(ws[1..]))
  }

  /** u is served before w: more urgent, or as urgent and waiting longer. */
  ghost predicate Precedes(u: Tid, w: Tid, prio: map<Tid, nat>, since: map<Tid, nat>) {
    && u in prio && w in prio && u in since && w in since
    && (prio[u] < prio[w] || (prio[u] == prio[w] && since[u] < since[w]))
  }

  /** The waiters stand in order of urgency, equals in order of arrival. */
  ghost predicate Ordered(ws: seq<Tid>, prio: map<Tid, nat>, since: map<Tid, nat>) {
    ws == [] || ((forall w :: w in ws[1..] ==> Precedes(ws[0], w, prio, since)) && Ordered(ws[1..], prio, since))
  }

  lemma {:induction false} EnlistDistinct(ws: seq<Tid>, t: Tid, flag: Flag, prio: map<Tid, nat>)
    requires t in prio && (forall w :: w in ws ==> w in prio) && Distinct(ws) && t !in ws
    ensures Distinct(Enlist(ws, t, flag, prio))
    decreases |ws|
  {
    if ws == [] {
      assert Enlist(ws, t, flag, prio) == [t];
    } else {
      assert ws == [ws[0]] + ws[1..];
      if flag == Fifo || prio[t] >= prio[ws[0]] {
        EnlistDistinct(ws[1..], t, flag, prio);
        EnlistMembers(ws[1..], t, flag, prio);
        assert Enlist(ws, t, flag, prio) == [ws[0]] + Enlist(ws[1..], t, flag, prio);
      } else {
        assert Enlist(ws, t, flag, prio)[1..] == ws;
      }
    }
  }

  /** A newcomer keeps the list in order. */
  lemma {:induction false} EnlistOrdered(ws: seq<Tid>, t: Tid, prio: map<Tid, nat>, since: map<Tid, nat>)
    requires t in prio && (forall w :: w in ws ==> w in prio && w in since) && Ordered(ws, prio, since)
    requires t in since && forall w :: w in ws ==> since[w] < since[t]
    ensures Ordered(EnlistPrio(ws, t, prio), prio, since)
  {
    if ws != [] {
      assert ws == [ws[0]] + ws[1..];
      if prio[t] < prio[ws[0]] {
        assert ([t] + ws)[1..] == ws;
        assert forall w :: w in ws[1..] ==> Precedes(ws[0], w, prio, since);
      } else {
        EnlistOrdered(ws[1..], t, prio, since);
        EnlistMembers(ws[1..], t, Prio, prio);
        assert EnlistPrio(ws, t, prio)[1..] == EnlistPrio(ws[1..], t, prio);
      }
    }
  }

  lemma {:induction false} DistinctSnoc(s: seq<Tid>, n: Tid)
    requires Distinct(s) && n !in s
    ensures Distinct(s + [n])
  {
    if s == [] {
      assert s + [n] == [n];
    } else {
      assert (s + [n])[1..] == s[1..] + [n];
      DistinctSnoc(s[1..], n);
    }
  }

  lemma DistinctCons(s: seq<Tid>, n: Tid)
    requires Distinct(s) && n !in s
    ensures Distinct([n] + s)
  {
    assert ([n] + s)[1..] == s;
  }

  /** The list with one thread taken out, as rt_list_remove does. */
  function Without(ws: seq<Tid>, t: Tid): seq<Tid> {
    if ws == [] then [] else if ws[0] == t then ws[1..] else [ws[0]] + Without(ws[1..], t)
  }

  /** The thread leaves its place, and the rest keeps its order. */
  lemma {:induction false} WithoutSplits(a: seq<Tid>, t: Tid, b: seq<Tid>)
    requires t !in a
    ensures Without(a + [t] + b, t) == a + b
  {
    if a == [] {
      assert [] + [t] + b == [t] + b && ([t] + b)[1..] == b && [] + b == b;
    } else {
      assert (a + [t] + b)[1..] == a[1..] + [t] + b;
      WithoutSplits(a[1..], t, b);
      assert [a[0]] + (a[1..] + b) == a + b;
    }
  }

  lemma {:induction false} NotBefore(a: seq<Tid>, t: Tid, b: seq<Tid>)
    requires Distinct(a + [t] + b)
    ensures t !in a
  {
    if a != [] {
      assert (a + [t] + b)[1..] == a[1..] + [t] + b && t in a[1..] + [t] + b;
      NotBefore(a[1..], t, b);
    }
  }

  lemma {:induction false} WithoutMembers(ws: seq<Tid>, t: Tid)
    requires Distinct(ws)
    ensures forall w :: w in Without(ws, t) <==> w in ws && w != t
    ensures Distinct(Without(ws, t))
    ensures |Without(ws, t)| == |ws| - (if t in ws then 1 else 0)
  {
    if ws != [] {
      assert ws == [ws[0]] + ws[1..];
      WithoutMembers(ws[1..], t);
      if ws[0] != t {
        assert Without(ws, t)[1..] == Without(ws[1..], t);
      }
    }
  }

  lemma {:induction false} WithoutAbsent(ws: seq<Tid>, t: Tid)
    requires t !in ws
    ensures Without(ws, t) == ws
  {
    if ws != [] {
      WithoutAbsent(ws[1..], t);
      assert ws == [ws[0]] + ws[1..];
    }
  }

  lemma {:induction false} WithoutOrdered(ws: seq<Tid>, t: Tid, prio: map<Tid, nat>, since: map<Tid, nat>)
    requires Distinct(ws) && Ordered(ws, prio, since)
    ensures Ordered(Without(ws, t), prio, since)
  {
    if ws != [] && ws[0] != t {
      WithoutMembers(ws[1..], t);
      WithoutOrdered(ws[1..], t, prio, since);
      assert Without(ws, t)[1..] == Without(ws[1..], t);
    }
  }

  /** The order depends only on the priorities and arrivals of the waiters. */
  lemma {:induction false} OrderedFrame(ws: seq<Tid>, prio: map<Tid, nat>, since: map<Tid, nat>,
                                        prio': map<Tid, nat>, since': map<Tid, nat>)
    requires Ordered(ws, prio, since)
    requires forall w :: w in ws ==> w in prio && w in prio' && prio[w] == prio'[w]
    requires forall w :: w in ws ==> w in since && w in since' && since[w] == since'[w]
    ensures Ordered(ws, prio', since')
  {
    if ws != [] {
      assert ws == [ws[0]] + ws[1..];
      forall w | w in ws[1..] ensures Precedes(ws[0], w, prio', since') {
        assert Precedes(ws[0], w, prio, since);
      }
      OrderedFrame(ws[1..], prio, since, prio', since');
    }
  }
}
