/** The mailbox of ipc.c: a ring buffer with blocking senders and receivers. A
    step is one critical section, from interrupt-disable to interrupt-enable. */
module MailboxSpec {
  import opened IpcList

  /** The mailbox fields and its two lists of suspended threads. `wokenRx` and
      `wokenTx` are the threads resumed but not yet back in their retry loop;
      `sent` and `got` are all mails ever stored and ever taken out. */
  datatype Mailbox = Mailbox(pool: seq<int>, entry: nat, inOffset: nat, outOffset: nat,
                             rx: seq<Tid>, tx: seq<Tid>, wokenRx: set<Tid>, wokenTx: set<Tid>,
                             prio: map<Tid, nat>, sent: seq<int>, got: seq<int>)
  {
    function Size(): nat { |pool| }
  }

  datatype Status = Ok | Mail(value: int) | Full | TimedOut | Suspended

  /** Position i of the queue in the ring. */
  function Slot(out: nat, i: nat, size: nat): nat {
    if out + i < size then out + i else out + i - size
  }

  /** The increment of an offset with its wrap to 0. */
  function Next(offset: nat, size: nat): nat {
    if offset + 1 >= size then 0 else offset + 1
  }

  ghost predicate RingOk(m: Mailbox) {
    && m.entry <= m.Size()
    && (m.Size() > 0 ==> m.outOffset < m.Size() && m.inOffset < m.Size())
    && (m.Size() > 0 ==>
          m.inOffset == if m.entry == m.Size() then m.outOffset else Slot(m.outOffset, m.entry, m.Size()))
  }

  /** The mails in the box, oldest first. */
  ghost function Queue(m: Mailbox): seq<int>
    requires RingOk(m)
  {
    seq(m.entry, i requires 0 <= i < m.entry => m.pool[Slot(m.outOffset, i, m.Size())])
  }

  /** One critical section of rt_mb_send_wait by thread t, first or after being resumed. */
  function Send(m: Mailbox, t: Tid, value: int, flag: Flag, wait: bool): (Mailbox, Status)
    requires RingOk(m) && t in m.prio && forall w :: w in m.tx ==> w in m.prio
  {
    var m := m.(wokenTx := m.wokenTx - {t});
    if m.entry == m.Size() then
      if !wait then (m, Full) else (m.(tx := Enlist(m.tx, t, flag, m.prio)), Suspended)
    else
      var g := m.(pool := m.pool[m.inOffset := value], inOffset := Next(m.inOffset, m.Size()), entry := m.entry + 1,
                  sent := m.sent + [value]);
      if m.rx == [] then (g, Ok)
      else (g.(rx := m.rx[1..], wokenRx := m.wokenRx + {m.rx[0]}), Ok)
  }

  /** One critical section of rt_mb_recv by thread t. */
  function Recv(m: Mailbox, t: Tid, flag: Flag, wait: bool): (Mailbox, Status)
    requires RingOk(m) && t in m.prio && forall w :: w in m.rx ==> w in m.prio
  {
    var m := m.(wokenRx := m.wokenRx - {t});
    if m.entry == 0 then
      if !wait then (m, TimedOut) else (m.(rx := Enlist(m.rx, t, flag, m.prio)), Suspended)
    else
      var v := m.pool[m.outOffset];
      var g := m.(outOffset := Next(m.outOffset, m.Size()), entry := m.entry - 1, got := m.got + [v]);
      if m.tx == [] then (g, Mail(v))
      else (g.(tx := m.tx[1..], wokenTx := m.wokenTx + {m.tx[0]}), Mail(v))
  }

  /** rt_thread_timeout of a waiting sender or receiver. */
  function Expire(m: Mailbox, t: Tid): Mailbox {
    m.(rx := Without(m.rx, t), tx := Without(m.tx, t))
  }

  // ------------------------------------------------------- the bounded queue

  /** A send that does not block appends to the queue and changes no mail in it. */
  lemma SendIsAppend(m: Mailbox, t: Tid, value: int, flag: Flag, wait: bool)
    requires RingOk(m) && t in m.prio && forall w :: w in m.tx ==> w in m.prio
    ensures var (g, st) := Send(m, t, value, flag, wait);
            RingOk(g) && g.Size() == m.Size() && (st == Ok <==> m.entry < m.Size()) &&
            Queue(g) == Queue(m) + (if st == Ok then [value] else [])
  {
    var (g, st) := Send(m, t, value, flag, wait);
    if st == Ok {
      assert |Queue(g)| == |Queue(m) + [value]|;
      forall i | 0 <= i < m.entry + 1 ensures Queue(g)[i] == (Queue(m) + [value])[i] {
      }
    } else {
      assert Queue(g) == Queue(m);
    }
  }

  /** A receive that does not block takes the oldest mail. */
  lemma RecvIsPop(m: Mailbox, t: Tid, flag: Flag, wait: bool)
    requires RingOk(m) && t in m.prio && forall w :: w in m.rx ==> w in m.prio
    ensures var (g, st) := Recv(m, t, flag, wait);
            RingOk(g) && g.Size() == m.Size() && (st.Mail? <==> m.entry > 0) &&
            Queue(m) == (if st.Mail? then [st.value] else []) + Queue(g)
  {
    var (g, st) := Recv(m, t, flag, wait);
    if st.Mail? {
      assert |Queue(m)| == |[st.value] + Queue(g)|;
      forall i | 0 <= i < m.entry ensures Queue(m)[i] == ([st.value] + Queue(g))[i] {
      }
    } else {
      assert Queue(g) == Queue(m);
    }
  }

  /** A full box refuses a send that does not wait, and lists one that does; a send that
      finds room resumes the first waiting receiver, and changes no other list. */
  lemma SendSays(m: Mailbox, t: Tid, value: int, flag: Flag, wait: bool)
    requires RingOk(m) && t in m.prio && forall w :: w in m.tx ==> w in m.prio
    ensures var (g, st) := Send(m, t, value, flag, wait);
            && g.prio == m.prio && g.wokenTx == m.wokenTx - {t} && g.got == m.got
            && (m.entry == m.Size() ==>
                  && st == (if wait then Suspended else Full) && g.rx == m.rx && g.wokenRx == m.wokenRx &&
                    g.sent == m.sent
                  && multiset(g.tx) == multiset(m.tx) + if wait then multiset{t} else multiset{})
            && (m.entry < m.Size() ==>
                  && st == Ok && g.tx == m.tx && g.sent == m.sent + [value]
                  && (m.rx == [] ==> g.rx == [] && g.wokenRx == m.wokenRx)
                  && (m.rx != [] ==> g.rx == m.rx[1..] && g.wokenRx == m.wokenRx + {m.rx[0]}))
  {
    EnlistAdds(m.tx, t, flag, m.prio);
  }

  /** An empty box refuses a receive that does not wait, and lists one that does; a
      receive that finds a mail resumes the first waiting sender. */
  lemma RecvSays(m: Mailbox, t: Tid, flag: Flag, wait: bool)
    requires RingOk(m) && t in m.prio && forall w :: w in m.rx ==> w in m.prio
    ensures var (g, st) := Recv(m, t, flag, wait);
            && g.prio == m.prio && g.wokenRx == m.wokenRx - {t} && g.sent == m.sent
            && (m.entry == 0 ==>
                  && st == (if wait then Suspended else TimedOut) && g.tx == m.tx && g.wokenTx == m.wokenTx &&
                    g.got == m.got
                  && multiset(g.rx) == multiset(m.rx) + if wait then multiset{t} else multiset{})
            && (m.entry > 0 ==>
                  && st == Mail(Queue(m)[0]) && g.rx == m.rx && g.got == m.got + [Queue(m)[0]]
                  && (m.tx == [] ==> g.tx == [] && g.wokenTx == m.wokenTx)
                  && (m.tx != [] ==> g.tx == m.tx[1..] && g.wokenTx == m.wokenTx + {m.tx[0]}))
  {
    EnlistAdds(m.rx, t, flag, m.prio);
  }

  /** A timeout takes the thread out of the list it waits in, and changes nothing else. */
  lemma ExpireSays(m: Mailbox, t: Tid, a: seq<Tid>, b: seq<Tid>)
    requires Distinct(m.rx) && Distinct(m.tx)
    ensures m.rx == a + [t] + b && t !in m.tx ==> Expire(m, t) == m.(rx := a + b)
    ensures m.tx == a + [t] + b && t !in m.rx ==> Expire(m, t) == m.(tx := a + b)
  {
    if m.rx == a + [t] + b || m.tx == a + [t] + b {
      NotBefore(a, t, b);
      WithoutSplits(a, t, b);
      if t !in m.tx { WithoutAbsent(m.tx, t); }
      if t !in m.rx { WithoutAbsent(m.rx, t); }
    }
  }

  // ------------------------------------------------------------ every state

  ghost predicate Lists(m: Mailbox) {
    && Distinct(m.rx) && Distinct(m.tx)
    && (forall w :: w in m.rx ==> w in m.prio && w !in m.wokenRx)
    && (forall w :: w in m.tx ==> w in m.prio && w !in m.wokenTx)
  }

  /** No wakeup is lost: while a receiver waits, every mail has a woken receiver
      on its way, and while a sender waits, every free slot has a woken sender. */
  ghost predicate NoLostWakeup(m: Mailbox) {
    && (m.rx != [] ==> m.entry <= |m.wokenRx|)
    && (m.tx != [] ==> m.Size() - m.entry <= |m.wokenTx|)
  }

  ghost predicate Inv(m: Mailbox) {
    RingOk(m) && Lists(m) && NoLostWakeup(m) && m.sent == m.got + Queue(m)
  }

  /** A thread is outside both lists when it enters a critical section, and a
      resumed thread goes on with the call it was suspended in. */
  ghost predicate MaySend(m: Mailbox, t: Tid) {
    t in m.prio && t !in m.rx && t !in m.tx && t !in m.wokenRx
  }

  ghost predicate MayRecv(m: Mailbox, t: Tid) {
    t in m.prio && t !in m.rx && t !in m.tx && t !in m.wokenTx
  }

  lemma SizeAfterRemoval(s: set<Tid>, t: Tid)
    ensures |s - {t}| == |s| - (if t in s then 1 else 0)
  {
    if t !in s { assert s - {t} == s; }
  }

  lemma SizeAfterAdding(s: set<Tid>, t: Tid)
    requires t !in s
    ensures |s + {t}| == |s| + 1
  {
  }

  lemma SendKeepsInv(m: Mailbox, t: Tid, value: int, flag: Flag, wait: bool)
    requires Inv(m) && MaySend(m, t)
    ensures Inv(Send(m, t, value, flag, wait).0)
  {
    SendIsAppend(m, t, value, flag, wait);
    SizeAfterRemoval(m.wokenTx, t);
    if m.entry == m.Size() {
      EnlistMembers(m.tx, t, flag, m.prio);
      EnlistDistinct(m.tx, t, flag, m.prio);
    } else if m.rx != [] {
      assert m.rx == [m.rx[0]] + m.rx[1..];
      SizeAfterAdding(m.wokenRx, m.rx[0]);
    }
  }

  lemma RecvKeepsInv(m: Mailbox, t: Tid, flag: Flag, wait: bool)
    requires Inv(m) && MayRecv(m, t)
    ensures Inv(Recv(m, t, flag, wait).0)
  {
    RecvIsPop(m, t, flag, wait);
    SizeAfterRemoval(m.wokenRx, t);
    if m.entry == 0 {
      EnlistMembers(m.rx, t, flag, m.prio);
      EnlistDistinct(m.rx, t, flag, m.prio);
    } else {
      var g := Recv(m, t, flag, wait).0;
      assert m.got + Queue(m) == (m.got + [m.pool[m.outOffset]]) + Queue(g);
      if m.tx != [] {
        assert m.tx == [m.tx[0]] + m.tx[1..];
        SizeAfterAdding(m.wokenTx, m.tx[0]);
      }
    }
  }

  lemma ExpireKeepsInv(m: Mailbox, t: Tid)
    requires Inv(m)
    ensures Inv(Expire(m, t))
  {
    WithoutMembers(m.rx, t);
    WithoutMembers(m.tx, t);
    assert Queue(Expire(m, t)) == Queue(m);
  }

  datatype Op = OpSend(t: Tid, value: int, wait: bool) | OpRecv(t: Tid, wait: bool) | OpExpire(t: Tid)

  ghost predicate Legal(m: Mailbox, op: Op) {
    match op
    case OpSend(t, _, _) => MaySend(m, t)
    case OpRecv(t, _) => MayRecv(m, t)
    case OpExpire(t) => true
  }

  function Step(m: Mailbox, op: Op, flag: Flag): Mailbox
    requires RingOk(m) && Lists(m) && Legal(m, op)
  {
    match op
    case OpSend(t, value, wait) => Send(m, t, value, flag, wait).0
    case OpRecv(t, wait) => Recv(m, t, flag, wait).0
    case OpExpire(t) => Expire(m, t)
  }

  ghost predicate Reaches(m: Mailbox, ops: seq<Op>, flag: Flag, g: Mailbox)
    decreases ops
  {
    if ops == [] then m == g
    else RingOk(m) && Lists(m) && Legal(m, ops[0]) && Reaches(Step(m, ops[0], flag), ops[1..], flag, g)
  }

  /** Over every interleaving of sends, receives and timeouts: no lost wakeup, and
      the mails taken out followed by those in the box are the mails sent. */
  lemma {:induction false} RunKeepsInv(m: Mailbox, ops: seq<Op>, flag: Flag, g: Mailbox)
    requires Inv(m) && Reaches(m, ops, flag, g)
    ensures Inv(g)
    decreases ops
  {
    if ops != [] {
      match ops[0] {
        case OpSend(t, value, wait) => SendKeepsInv(m, t, value, flag, wait);
        case OpRecv(t, wait) => RecvKeepsInv(m, t, flag, wait);
        case OpExpire(t) => ExpireKeepsInv(m, t);
      }
      RunKeepsInv(Step(m, ops[0], flag), ops[1..], flag, g);
    }
  }

  /** Senders and receivers never all sleep on one mailbox: with a slot at all and
      nobody on the way, at most one of the two lists is occupied, and then the
      box is empty or full as its waiters think. */
  lemma NeverBothStuck(m: Mailbox)
    requires Inv(m) && m.Size() > 0 && m.wokenRx == {} && m.wokenTx == {}
    ensures m.rx == [] || m.tx == []
    ensures m.rx != [] ==> m.entry == 0
    ensures m.tx != [] ==> m.entry == m.Size()
  {
  }
}
