/** The message queue of ipc.c. Nodes of a fixed pool move between the free list,
    the message list and the hands of a thread that copies; each critical section
    is one step. */
module MsgQueueSpec {
  import opened Options
  import opened IpcList

  /** Where a node of the pool is. */
  datatype Place = Free | Queued | Sending(t: Tid) | Receiving(t: Tid)

  /** The two lists in link order, the place of every node, and the message in each node. */
  datatype State = State(fl: seq<nat>, q: seq<nat>, place: map<nat, Place>, data: map<nat, int>)

  function Busy(p: Place): Option<Tid> {
    match p
    case Sending(t) => Some(t)
    case Receiving(t) => Some(t)
    case _ => None
  }

  /** Every node is in exactly one place, and a thread holds at most one node. */
  ghost predicate Inv(s: State) {
    && Distinct(s.fl) && Distinct(s.q)
    && s.data.Keys == s.place.Keys
    && (forall n :: n in s.fl <==> n in s.place && s.place[n] == Free)
    && (forall n :: n in s.q <==> n in s.place && s.place[n] == Queued)
    && (forall n, m ::
          n in s.place && m in s.place && Busy(s.place[n]).Some? && Busy(s.place[n]) == Busy(s.place[m]) ==> n == m)
  }

  /** Thread t is between no two critical sections of this queue. */
  ghost predicate Idle(s: State, t: Tid) {
    forall n :: n in s.place ==> Busy(s.place[n]) != Some(t)
  }

  /** First section of rt_mq_send and rt_mq_urgent: take a free node. */
  function Grab(s: State, t: Tid): State
    requires s.fl != []
  {
    s.(fl := s.fl[1..], place := s.place[s.fl[0] := Sending(t)])
  }

  /** Between the sections: copy the message into the node in hand. */
  function Fill(s: State, n: nat, msg: int): State {
    s.(data := s.data[n := msg])
  }

  /** Second section of rt_mq_send: link at the tail. */
  function LinkTail(s: State, n: nat): State {
    s.(q := s.q + [n], place := s.place[n := Queued])
  }

  /** Second section of rt_mq_urgent: link at the head. */
  function LinkHead(s: State, n: nat): State {
    s.(q := [n] + s.q, place := s.place[n := Queued])
  }

  /** First section of rt_mq_recv: unlink the head. */
  function Take(s: State, t: Tid): State
    requires s.q != []
  {
    s.(q := s.q[1..], place := s.place[s.q[0] := Receiving(t)])
  }

  /** Second section of rt_mq_recv: the node goes back to the free list. */
  function Drop(s: State, n: nat): State {
    s.(fl := [n] + s.fl, place := s.place[n := Free])
  }

  /** rt_mq_control with RT_IPC_CMD_RESET: every queued node becomes free. */
  function Reset(s: State): State
    decreases |s.q|
  {
    if s.q == [] then s
    else Reset(s.(fl := [s.q[0]] + s.fl, q := s.q[1..], place := s.place[s.q[0] := Free]))
  }

  datatype Op = OpGrab(t: Tid) | OpFill(n: nat, msg: int) | OpLinkTail(n: nat) | OpLinkHead(n: nat)
              | OpTake(t: Tid) | OpDrop(n: nat) | OpReset

  ghost predicate Legal(s: State, op: Op) {
    match op
    case OpGrab(t) => s.fl != [] && Idle(s, t)
    case OpFill(n, _) => n in s.place && s.place[n].Sending?
    case OpLinkTail(n) => n in s.place && s.place[n].Sending?
    case OpLinkHead(n) => n in s.place && s.place[n].Sending?
    case OpTake(t) => s.q != [] && Idle(s, t)
    case OpDrop(n) => n in s.place && s.place[n].Receiving?
    case OpReset => true
  }

  function Step(s: State, op: Op): State
    requires Legal(s, op)
  {
    match op
    case OpGrab(t) => Grab(s, t)
    case OpFill(n, msg) => Fill(s, n, msg)
    case OpLinkTail(n) => LinkTail(s, n)
    case OpLinkHead(n) => LinkHead(s, n)
    case OpTake(t) => Take(s, t)
    case OpDrop(n) => Drop(s, n)
    case OpReset => Reset(s)
  }

  // ------------------------------------------------------- places of the nodes

  lemma HeadTail(s: seq<nat>)
    requires s != [] && Distinct(s)
    ensures forall n :: n in s <==> n == s[0] || n in s[1..]
    ensures s[0] !in s[1..] && Distinct(s[1..])
  {
    assert s == [s[0]] + s[1..];
  }

  lemma FlushKeepsInv(s: State)
    requires Inv(s) && s.q != []
    ensures Inv(s.(fl := [s.q[0]] + s.fl, q := s.q[1..], place := s.place[s.q[0] := Free]))
  {
    HeadTail(s.q);
    DistinctCons(s.fl, s.q[0]);
  }

  lemma {:induction false} ResetKeepsInv(s: State)
    requires Inv(s)
    ensures Inv(Reset(s)) && Reset(s).q == [] && Reset(s).data == s.data && Reset(s).place.Keys == s.place.Keys
    ensures forall n :: n in s.place ==> Reset(s).place[n] == if s.place[n] == Queued then Free else s.place[n]
    decreases |s.q|
  {
    if s.q != [] {
      FlushKeepsInv(s);
      ResetKeepsInv(s.(fl := [s.q[0]] + s.fl, q := s.q[1..], place := s.place[s.q[0] := Free]));
    }
  }

  lemma GrabKeepsInv(s: State, t: Tid)
    requires Inv(s) && s.fl != [] && Idle(s, t)
    ensures Inv(Grab(s, t)) && Grab(s, t).place.Keys == s.place.Keys
  {
    HeadTail(s.fl);
  }

  lemma LinkKeepsInv(s: State, n: nat)
    requires Inv(s) && n in s.place && s.place[n].Sending?
    ensures Inv(LinkTail(s, n)) && LinkTail(s, n).place.Keys == s.place.Keys
    ensures Inv(LinkHead(s, n)) && LinkHead(s, n).place.Keys == s.place.Keys
  {
    DistinctSnoc(s.q, n);
    DistinctCons(s.q, n);
  }

  lemma TakeKeepsInv(s: State, t: Tid)
    requires Inv(s) && s.q != [] && Idle(s, t)
    ensures Inv(Take(s, t)) && Take(s, t).place.Keys == s.place.Keys
  {
    HeadTail(s.q);
  }

  lemma DropKeepsInv(s: State, n: nat)
    requires Inv(s) && n in s.place && s.place[n].Receiving?
    ensures Inv(Drop(s, n)) && Drop(s, n).place.Keys == s.place.Keys
  {
    DistinctCons(s.fl, n);
  }

  lemma StepKeepsInv(s: State, op: Op)
    requires Inv(s) && Legal(s, op)
    ensures Inv(Step(s, op)) && Step(s, op).place.Keys == s.place.Keys
  {
    match op {
      case OpGrab(t) => GrabKeepsInv(s, t);
      case OpFill(n, _) =>
      case OpLinkTail(n) => LinkKeepsInv(s, n);
      case OpLinkHead(n) => LinkKeepsInv(s, n);
      case OpTake(t) => TakeKeepsInv(s, t);
      case OpDrop(n) => DropKeepsInv(s, n);
      case OpReset => ResetKeepsInv(s);
    }
  }

  ghost predicate Reaches(s: State, ops: seq<Op>, g: State)
    decreases ops
  {
    if ops == [] then s == g else Legal(s, ops[0]) && Reaches(Step(s, ops[0]), ops[1..], g)
  }

  /** Under any interleaving of the critical sections no node is lost, doubled or
      shared. */
  lemma {:induction false} RunKeepsInv(s: State, ops: seq<Op>, g: State)
    requires Inv(s) && Reaches(s, ops, g)
    ensures Inv(g) && g.place.Keys == s.place.Keys
    decreases ops
  {
    if ops != [] {
      StepKeepsInv(s, ops[0]);
      RunKeepsInv(Step(s, ops[0]), ops[1..], g);
    }
  }

  ghost function Elems(s: seq<nat>): set<nat> {
    if s == [] then {} else {s[0]} + Elems(s[1..])
  }

  lemma {:induction false} ElemsSize(s: seq<nat>)
    requires Distinct(s)
    ensures |Elems(s)| == |s| && forall n :: n in Elems(s) <==> n in s
  {
    if s != [] {
      HeadTail(s);
      ElemsSize(s[1..]);
    }
  }

  ghost function Held(s: State): set<nat> {
    set n | n in s.place && Busy(s.place[n]).Some?
  }

  lemma DisjointSize(f: set<nat>, q: set<nat>, b: set<nat>)
    requires f !! q && f !! b && q !! b
    ensures |f + q + b| == |f| + |q| + |b|
  {
  }

  lemma PoolParts(s: State, f: set<nat>, q: set<nat>)
    requires Inv(s) && (forall n :: n in f <==> n in s.fl) && (forall n :: n in q <==> n in s.q)
    ensures f !! q && f !! Held(s) && q !! Held(s)
    ensures f + q + Held(s) == s.place.Keys
  {
    forall n | n in s.place ensures n in f || n in q || n in Held(s) {
      if s.place[n] == Free { assert n in s.fl; } else if s.place[n] == Queued { assert n in s.q; }
    }
  }

  /** Free, queued and held nodes add up to the pool. */
  lemma Conserved(s: State)
    requires Inv(s)
    ensures |s.fl| + |s.q| + |Held(s)| == |s.place|
  {
    ElemsSize(s.fl);
    ElemsSize(s.q);
    PoolParts(s, Elems(s.fl), Elems(s.q));
    DisjointSize(Elems(s.fl), Elems(s.q), Held(s));
  }

  /** Where each step puts the node it works on; all other nodes stay where they are, but
      for a reset, which frees the queued ones, and only a copy changes a message. */
  lemma StepPlaces(s: State, op: Op)
    requires Inv(s) && Legal(s, op)
    ensures var g := Step(s, op);
            && (op.OpGrab? ==> g.place == s.place[s.fl[0] := Sending(op.t)] && g.fl == s.fl[1..])
            && (op.OpFill? ==> g == s.(data := s.data[op.n := op.msg]))
            && (op.OpLinkTail? || op.OpLinkHead? ==> g.place == s.place[op.n := Queued] && g.fl == s.fl)
            && (op.OpTake? ==> g.place == s.place[s.q[0] := Receiving(op.t)] && g.fl == s.fl)
            && (op.OpDrop? ==> g.place == s.place[op.n := Free] && g.fl == [op.n] + s.fl)
            && (op.OpReset? ==> forall n :: n in s.place ==>
                  n in g.place && g.place[n] == if s.place[n] == Queued then Free else s.place[n])
            && (!op.OpFill? ==> g.data == s.data)
  {
    if op.OpReset? { ResetKeepsInv(s); }
  }

  // ------------------------------------------------------ order of messages

  /** The messages waiting, in the order they will be received. */
  ghost function Messages(s: State): seq<int>
    requires forall n :: n in s.q ==> n in s.data
  {
    seq(|s.q|, i requires 0 <= i < |s.q| => s.data[s.q[i]])
  }

  /** What the step does to the messages: urgent ones enter at the front, others at
      the back, receivers take the front, copying threads touch nothing. */
  ghost function Moved(s: State, op: Op): seq<int>
    requires Inv(s) && Legal(s, op)
  {
    match op
    case OpLinkTail(n) => Messages(s) + [s.data[n]]
    case OpLinkHead(n) => [s.data[n]] + Messages(s)
    case OpTake(_) => Messages(s)[1..]
    case OpReset => []
    case _ => Messages(s)
  }

  lemma StepMovesMessages(s: State, op: Op)
    requires Inv(s) && Legal(s, op)
    ensures Inv(Step(s, op)) && Messages(Step(s, op)) == Moved(s, op)
    ensures op.OpTake? ==> s.data[s.q[0]] == Messages(s)[0]
  {
    StepKeepsInv(s, op);
    MessagesMoved(s, op);
  }

  lemma MessagesMoved(s: State, op: Op)
    requires Inv(s) && Legal(s, op) && forall n :: n in Step(s, op).q ==> n in Step(s, op).data
    ensures Messages(Step(s, op)) == Moved(s, op)
  {
    if op.OpReset? { ResetKeepsInv(s); }
    var m := Messages(Step(s, op));
    assert |m| == |Moved(s, op)|;
    forall i | 0 <= i < |m| ensures m[i] == Moved(s, op)[i] {
      if op.OpFill? { assert s.q[i] in s.q; }
    }
  }

  /** A node in a thread's hands keeps its message until that thread writes or drops it. */
  lemma HeldMessageStays(s: State, op: Op, n: nat)
    requires Inv(s) && Legal(s, op) && n in s.place && Busy(s.place[n]).Some?
    requires !(op.OpFill? && op.n == n)
    ensures n in Step(s, op).data && Step(s, op).data[n] == s.data[n]
  {
    if op.OpReset? { ResetKeepsInv(s); }
  }
}
