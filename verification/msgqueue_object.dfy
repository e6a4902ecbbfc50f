/** The message queue as ipc.c runs it: link words in the pool, and the head, tail
    and free pointers. */
module MsgQueueObject {
  import opened Options
  import opened IpcList
  import opened MsgQueueSpec

  /** Following the links from `start` visits exactly the nodes s and ends. */
  ghost predicate Chain(next: map<nat, Option<nat>>, start: Option<nat>, s: seq<nat>)
    decreases s
  {
    if s == [] then start == None
    else start == Some(s[0]) && s[0] in next && Chain(next, next[s[0]], s[1..])
  }

  lemma {:induction false} ChainFrame(next: map<nat, Option<nat>>, start: Option<nat>, s: seq<nat>, n: nat,
                                      v: Option<nat>)
    requires Chain(next, start, s) && n !in s
    ensures Chain(next[n := v], start, s)
    decreases s
  {
    if s != [] {
      assert s == [s[0]] + s[1..];
      ChainFrame(next, next[s[0]], s[1..], n, v);
    }
  }

  /** Appending node n behind the last node. */
  lemma {:induction false} ChainAppend(next: map<nat, Option<nat>>, start: Option<nat>, s: seq<nat>, n: nat)
    requires Chain(next, start, s) && s != [] && Distinct(s) && n !in s && n in next && next[n] == None
    ensures Chain(next[s[|s| - 1] := Some(n)], start, s + [n])
    decreases s
  {
    var next' := next[s[|s| - 1] := Some(n)];
    assert (s + [n])[1..] == s[1..] + [n];
    assert s == [s[0]] + s[1..];
    if |s| == 1 {
      assert Chain(next', Some(n), [n]);
    } else {
      ChainAppend(next, next[s[0]], s[1..], n);
      assert s[|s| - 1] in s[1..];
    }
  }

  lemma ChainPush(next: map<nat, Option<nat>>, start: Option<nat>, s: seq<nat>, n: nat)
    requires Chain(next, start, s) && n !in s
    ensures Chain(next[n := start], Some(n), [n] + s)
  {
    ChainFrame(next, start, s, n, start);
    assert ([n] + s)[1..] == s;
  }

  function Last(s: seq<nat>): Option<nat> {
    if s == [] then None else Some(s[|s| - 1])
  }

  lemma LastOfRest(s: seq<nat>)
    requires s != [] && Distinct(s)
    ensures Last(s[1..]) == if Last(s) == Some(s[0]) then None else Last(s)
  {
    assert |s| > 1 ==> s[|s| - 1] == s[1..][|s| - 2];
    assert |s| > 1 ==> s[|s| - 1] in s[1..];
  }

  /** The pool node n is on neither list. */
  lemma Apart(s: State, n: nat)
    requires Inv(s) && n in s.place
    ensures s.place[n] != Free ==> n !in s.fl
    ensures s.place[n] != Queued ==> n !in s.q
  {
  }

  class RtMessageQueue {
    const maxMsgs: nat
    var next: map<nat, Option<nat>>       // the link word of every pool node
    var data: map<nat, int>               // its message
    var head: Option<nat>
    var tail: Option<nat>
    var free: Option<nat>
    var entry: nat
    ghost var st: State

    ghost predicate Valid()
      reads this
    {
      Inv(st) && data == st.data && Wired()
    }

    /** The links spell out the two lists of st. */
    ghost predicate Linked()
      reads this
    {
      Chain(next, free, st.fl) && Chain(next, head, st.q) && tail == Last(st.q)
    }

    ghost predicate Wired()
      reads this
    {
      Linked() && entry == |st.q|
    }

    /** rt_mq_init: push every node of the pool on the free list. */
    constructor (maxMsgs: nat)
      ensures Valid() && this.maxMsgs == maxMsgs && st.q == []
      ensures forall n :: n in st.place <==> 0 <= n < maxMsgs
      ensures forall n :: n in st.place ==> st.place[n] == Free
    {
      this.maxMsgs := maxMsgs;
      next, data := map[], map[];
      head, tail, free, entry := None, None, None, 0;
      st := State([], [], map[], map[]);
      new;
      var temp := 0;
      while temp < maxMsgs
        invariant temp <= maxMsgs && Valid() && st.q == []
        invariant forall n :: n in st.place <==> 0 <= n < temp
        invariant forall n :: n in st.place ==> st.place[n] == Free
      {
        PushNew(temp);
        temp := temp + 1;
      }
    }

    /** Add node n of the pool to the free list. */
    method PushNew(n: nat)
      requires Valid() && st.q == [] && n !in st.place && forall m :: m in st.place ==> st.place[m] == Free
      modifies this
      ensures Valid() && st.q == [] && st.place == old(st).place[n := Free]
    {
      assert n !in st.fl;
      ChainPush(next, free, st.fl, n);
      DistinctCons(st.fl, n);
      next := next[n := free];
      data := data[n := 0];
      free := Some(n);
      st := State([n] + st.fl, [], st.place[n := Free], st.data[n := 0]);
    }

    /** First section of rt_mq_send and rt_mq_urgent; None is -RT_EFULL. */
    method Grab(t: Tid) returns (msg: Option<nat>)
      requires Valid() && Idle(st, t)
      modifies this
      ensures Valid() && (msg == None <==> old(st).fl == [])
      ensures if msg == None then st == old(st)
              else st == MsgQueueSpec.Grab(old(st), t) && msg.value in st.place && st.place[msg.value] == Sending(t)
    {
      msg := free;
      if msg == None { return; }
      GrabKeepsInv(st, t);
      free := next[msg.value];
      st := MsgQueueSpec.Grab(st, t);
    }

    /** Outside the sections: the node in hand is terminated and filled. */
    method Fill(n: nat, msg: int)
      requires Valid() && n in st.place && st.place[n].Sending?
      modifies this
      ensures Valid() && st == MsgQueueSpec.Fill(old(st), n, msg) && n in next && next[n] == None
    {
      StepKeepsInv(st, OpFill(n, msg));
      Apart(st, n);
      ChainFrame(next, free, st.fl, n, None);
      ChainFrame(next, head, st.q, n, None);
      next := next[n := None];
      data := data[n := msg];
      st := MsgQueueSpec.Fill(st, n, msg);
    }

    /** Link n behind the tail. */
    method Append(n: nat)
      requires Wired() && Distinct(st.q) && n !in st.q && n !in st.fl && n in next && next[n] == None
      requires st.q != [] ==> st.q[|st.q| - 1] !in st.fl
      modifies this`next, this`head, this`tail, this`entry
      ensures Chain(next, free, st.fl) && Chain(next, head, st.q + [n]) && tail == Some(n) && entry == |st.q| + 1
    {
      if tail != None {
        ChainAppend(next, head, st.q, n);
        ChainFrame(next, free, st.fl, tail.value, Some(n));
        next := next[tail.value := Some(n)];
      }
      tail := Some(n);
      if head == None {
        head := Some(n);
        assert [n][1..] == [] && st.q + [n] == [n];
      }
      entry := entry + 1;
    }

    /** Second section of rt_mq_send. */
    method LinkTail(n: nat)
      requires Valid() && n in st.place && st.place[n].Sending? && n in next && next[n] == None
      modifies this
      ensures Valid() && st == MsgQueueSpec.LinkTail(old(st), n)
    {
      LinkKeepsInv(st, n);
      Apart(st, n);
      if st.q != [] { assert st.q[|st.q| - 1] in st.q; }
      Append(n);
      st := MsgQueueSpec.LinkTail(st, n);
    }

    /** Link n in front of the head. */
    method Prepend(n: nat)
      requires Wired() && n !in st.q && n !in st.fl
      modifies this`next, this`head, this`tail, this`entry
      ensures Chain(next, free, st.fl) && Chain(next, head, [n] + st.q) && tail == Last([n] + st.q) &&
              entry == |st.q| + 1
    {
      ChainFrame(next, free, st.fl, n, head);
      ChainPush(next, head, st.q, n);
      next := next[n := head];
      head := Some(n);
      if tail == None { tail := Some(n); }
      entry := entry + 1;
    }

    /** Second section of rt_mq_urgent. */
    method LinkHead(n: nat)
      requires Valid() && n in st.place && st.place[n].Sending?
      modifies this
      ensures Valid() && st == MsgQueueSpec.LinkHead(old(st), n)
    {
      LinkKeepsInv(st, n);
      Apart(st, n);
      Prepend(n);
      st := MsgQueueSpec.LinkHead(st, n);
    }

    /** Unlink the head. */
    method Unlink() returns (n: nat)
      requires Linked() && st.q != [] && Distinct(st.q)
      modifies this`head, this`tail
      ensures n == st.q[0] && Chain(next, head, st.q[1..]) && tail == Last(st.q[1..])
    {
      LastOfRest(st.q);
      n := head.value;
      head := next[n];
      if tail == Some(n) { tail := None; }
    }

    /** First section of rt_mq_recv; None is an empty queue. */
    method Take(t: Tid) returns (msg: Option<nat>)
      requires Valid() && Idle(st, t)
      modifies this
      ensures Valid() && (msg == None <==> old(st).q == [])
      ensures if msg == None then st == old(st)
              else msg == Some(old(st).q[0]) && st == MsgQueueSpec.Take(old(st), t)
    {
      if entry == 0 { return None; }
      TakeKeepsInv(st, t);
      var n := Unlink();
      entry := entry - 1;
      st := MsgQueueSpec.Take(st, t);
      return Some(n);
    }

    /** Second section of rt_mq_recv. */
    method Drop(n: nat)
      requires Valid() && n in st.place && st.place[n].Receiving?
      modifies this
      ensures Valid() && st == MsgQueueSpec.Drop(old(st), n)
    {
      DropKeepsInv(st, n);
      Apart(st, n);
      ChainPush(next, free, st.fl, n);
      ChainFrame(next, head, st.q, n, free);
      next := next[n := free];
      free := Some(n);
      st := MsgQueueSpec.Drop(st, n);
    }

    /** One turn of the loop of rt_mq_control: the head becomes free. */
    method Flush()
      requires Inv(st) && data == st.data && Linked() && st.q != []
      modifies this`next, this`head, this`tail, this`free, this`st
      ensures Inv(st) && data == st.data && Linked() && var s := old(st);
              st == s.(fl := [s.q[0]] + s.fl, q := s.q[1..], place := s.place[s.q[0] := Free])
    {
      FlushKeepsInv(st);
      HeadTail(st.q);
      Apart(st, st.q[0]);
      var n := Unlink();
      ChainPush(next, free, st.fl, n);
      ChainFrame(next, head, st.q[1..], n, free);
      next := next[n := free];
      free := Some(n);
      st := st.(fl := [n] + st.fl, q := st.q[1..], place := st.place[n := Free]);
    }

    /** rt_mq_control with RT_IPC_CMD_RESET. */
    method Reset()
      requires Valid()
      modifies this
      ensures Valid() && st == MsgQueueSpec.Reset(old(st))
    {
      while head != None
        invariant Inv(st) && data == st.data && Linked()
        invariant MsgQueueSpec.Reset(st) == MsgQueueSpec.Reset(old(st))
        decreases |st.q|
      {
        Flush();
      }
      entry := 0;
    }
  }
}
