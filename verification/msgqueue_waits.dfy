/** Receivers that wait for a message: the message queue with its list of suspended
    threads. Senders never wait, a full queue turns them away. */
module MsgQueueWaits {
  import opened IpcList
  import S = MsgQueueSpec

  /** `woken` are the receivers resumed by a message but not yet back in their loop. */
  datatype Queue = Queue(s: S.State, rx: seq<Tid>, woken: set<Tid>, prio: map<Tid, nat>)

  /** The end of rt_mq_send and rt_mq_urgent: the first receiver is resumed. */
  function WakeFirst(m: Queue, s: S.State): Queue {
    if m.rx == [] then m.(s := s) else m.(s := s, rx := m.rx[1..], woken := m.woken + {m.rx[0]})
  }

  /** First section of rt_mq_recv by thread t, when called or after being resumed: it
      takes a message, gives up, or waits. */
  function Recv(m: Queue, t: Tid, flag: Flag, wait: bool): Queue
    requires t in m.prio && forall w :: w in m.rx ==> w in m.prio
  {
    var woken := m.woken - {t};
    if m.s.q != [] then m.(s := S.Take(m.s, t), woken := woken)
    else if wait then m.(rx := Enlist(m.rx, t, flag, m.prio), woken := woken)
    else m.(woken := woken)
  }

  /** A section of a send or of the end of a receive, a receive, a timeout, or a reset,
      which resumes every receiver with an error. */
  datatype Op = OpQueue(op: S.Op) | OpRecv(t: Tid, wait: bool) | OpExpire(t: Tid) | OpReset

  ghost predicate Legal(m: Queue, op: Op) {
    match op
    case OpQueue(o) => !o.OpTake? && !o.OpReset? && S.Legal(m.s, o)
    case OpRecv(t, _) => t in m.prio && t !in m.rx && S.Idle(m.s, t)
    case OpExpire(t) => true
    case OpReset => true
  }

  ghost function Step(m: Queue, op: Op, flag: Flag): Queue
    requires Legal(m, op) && forall w :: w in m.rx ==> w in m.prio
  {
    match op
    case OpQueue(o) =>
      if o.OpLinkTail? || o.OpLinkHead? then WakeFirst(m, S.Step(m.s, o)) else m.(s := S.Step(m.s, o))
    case OpRecv(t, wait) => Recv(m, t, flag, wait)
    case OpExpire(t) => m.(rx := Without(m.rx, t))
    case OpReset => m.(s := S.Reset(m.s), rx := [])
  }

  ghost predicate Lists(m: Queue) {
    Distinct(m.rx) && forall w :: w in m.rx ==> w in m.prio && w !in m.woken
  }

  /** While a receiver waits, every message has a woken receiver on its way. */
  ghost predicate Inv(m: Queue) {
    S.Inv(m.s) && Lists(m) && (m.rx != [] ==> |m.s.q| <= |m.woken|)
  }

  lemma RecvKeeps(m: Queue, t: Tid, flag: Flag, wait: bool)
    requires Inv(m) && Legal(m, OpRecv(t, wait))
    ensures Inv(Recv(m, t, flag, wait))
  {
    assert t !in m.woken ==> m.woken - {t} == m.woken;
    if m.s.q != [] {
      S.StepKeepsInv(m.s, S.OpTake(t));
    } else if wait {
      EnlistMembers(m.rx, t, flag, m.prio);
      EnlistDistinct(m.rx, t, flag, m.prio);
    }
  }

  lemma WakeKeeps(m: Queue, s: S.State)
    requires Inv(m) && S.Inv(s) && |s.q| == |m.s.q| + 1
    ensures Inv(WakeFirst(m, s))
  {
    if m.rx != [] { assert m.rx == [m.rx[0]] + m.rx[1..]; }
  }

  lemma StepKeeps(m: Queue, op: Op, flag: Flag)
    requires Inv(m) && Legal(m, op)
    ensures Inv(Step(m, op, flag))
  {
    match op {
      case OpQueue(o) =>
        S.StepKeepsInv(m.s, o);
        if o.OpLinkTail? || o.OpLinkHead? { WakeKeeps(m, S.Step(m.s, o)); }
      case OpRecv(t, wait) => RecvKeeps(m, t, flag, wait);
      case OpExpire(t) => WithoutMembers(m.rx, t);
      case OpReset => S.ResetKeepsInv(m.s);
    }
  }

  /** A message resumes the receiver that waits first, whichever end it is linked to; a
      receive takes the first message, or waits, or gives up; a timeout takes the thread
      out of its place, a reset everybody and every message. */
  lemma StepSays(m: Queue, op: Op, flag: Flag, a: seq<Tid>, b: seq<Tid>)
    requires Inv(m) && Legal(m, op)
    ensures var g := Step(m, op, flag);
            && g.prio == m.prio
            && (op.OpQueue? ==>
                  && g.s == S.Step(m.s, op.op)
                  && (if (op.op.OpLinkTail? || op.op.OpLinkHead?) && m.rx != []
                      then g.rx == m.rx[1..] && g.woken == m.woken + {m.rx[0]}
                      else g.rx == m.rx && g.woken == m.woken))
            && (op.OpRecv? ==>
                  && g.woken == m.woken - {op.t}
                  && (m.s.q != [] ==> g.s == S.Step(m.s, S.OpTake(op.t)) && g.rx == m.rx)
                  && (m.s.q == [] ==>
                        g.s == m.s && multiset(g.rx) == multiset(m.rx) + if op.wait then multiset{op.t}
                          else multiset{}))
            && (op.OpExpire? && m.rx == a + [op.t] + b ==> g == m.(rx := a + b))
            && (op.OpReset? ==> g.rx == [] && g.s.q == [] && g.woken == m.woken)
  {
    if op.OpRecv? { EnlistAdds(m.rx, op.t, flag, m.prio); }
    if op.OpReset? { S.ResetKeepsInv(m.s); }
    if op.OpExpire? && m.rx == a + [op.t] + b {
      NotBefore(a, op.t, b);
      WithoutSplits(a, op.t, b);
    }
  }

  ghost predicate Reaches(m: Queue, ops: seq<Op>, flag: Flag, g: Queue)
    decreases ops
  {
    if ops == [] then m == g
    else
      && (forall w :: w in m.rx ==> w in m.prio) && Legal(m, ops[0])
      && Reaches(Step(m, ops[0], flag), ops[1..], flag, g)
  }

  /** Over every interleaving no wakeup is lost; once nobody is on the way, threads
      that wait find the queue empty. */
  lemma {:induction false} RunLosesNoWakeup(m: Queue, ops: seq<Op>, flag: Flag, g: Queue)
    requires Inv(m) && Reaches(m, ops, flag, g)
    ensures Inv(g) && (g.rx != [] && g.woken == {} ==> g.s.q == [])
    decreases ops
  {
    if ops != [] {
      StepKeeps(m, ops[0], flag);
      RunLosesNoWakeup(Step(m, ops[0], flag), ops[1..], flag, g);
    }
  }
}
