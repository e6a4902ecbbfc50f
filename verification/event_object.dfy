/** The event as ipc.c runs it: the set and the waiters updated in place. */
module EventObject {
  import opened IpcList
  import opened EventSpec

  lemma NextWaiter(done: seq<Tid>, ws: seq<Tid>, n: nat, all: seq<Tid>)
    requires n < |ws| && done + ws[n..] == all && Distinct(all)
    ensures (done + [ws[n]]) + ws[n + 1..] == all && Distinct(done + [ws[n]]) && ws[..n + 1] == ws[..n] + [ws[n]]
    ensures forall w :: w in done + [ws[n]] ==> w in all
  {
    assert ws[n..] == [ws[n]] + ws[n + 1..];
    assert (done + [ws[n]]) + ws[n + 1..] == all;
    DistinctParts(done + [ws[n]], ws[n + 1..]);
  }

  class RtEvent {
    var pending: Bits
    var suspendThread: seq<Tid>
    var wanted: map<Tid, Want>          // event_set and event_info of every thread
    var currentPriority: map<Tid, nat>
    const flag: Flag

    ghost function Abs(): Event
      reads this
    {
      Event(pending, suspendThread, wanted, currentPriority)
    }

    ghost predicate Valid()
      reads this
    {
      Known(Abs()) && Quiet(Abs())
    }

    /** rt_event_init. */
    constructor (flag: Flag, prio: map<Tid, nat>)
      ensures Valid() && Abs() == Event({}, [], map[], prio) && this.flag == flag
    {
      pending, suspendThread, wanted, currentPriority := {}, [], map[], prio;
      this.flag := flag;
    }

    /** rt_event_send: one walk of the list, resuming threads on the way. */
    method Send(bits: Bits) returns (r: Status, woken: seq<Tid>)
      requires Valid()
      modifies this
      ensures Valid() && (Abs(), woken) == EventSpec.Send(old(Abs()), bits)
      ensures r == Failed <==> bits == {}
    {
      SendKeepsQuiet(Abs(), bits);
      woken := [];
      if bits == {} { return Failed, []; }
      pending := pending + bits;
      woken := Walk();
      return Received(bits), woken;
    }

    /** The walk of rt_event_send. */
    method Walk() returns (woken: seq<Tid>)
      requires Known(Abs())
      modifies this
      ensures Swept(suspendThread, pending, wanted, woken) == Sweep(old(suspendThread), old(pending), old(wanted))
      ensures currentPriority == old(currentPriority)
    {
      ghost var done := [];
      var n := 0;
      woken := [];
      assert suspendThread[..0] == [];
      while n < |suspendThread|
        invariant n <= |suspendThread| && done + suspendThread[n..] == old(suspendThread)
        invariant Distinct(done) && (forall w :: w in done ==> w in old(wanted))
        invariant Sweep(done, old(pending), old(wanted)) == Swept(suspendThread[..n], pending, wanted, woken)
        invariant currentPriority == old(currentPriority)
        decreases |suspendThread| - n
      {
        var thread := suspendThread[n];
        NextWaiter(done, suspendThread, n, old(suspendThread));
        SweepSnoc(done, thread, old(pending), old(wanted));
        done := done + [thread];
        if Satisfied(wanted[thread], pending) {
          n := Resume(n);
          woken := woken + [thread];
        } else {
          n := n + 1;
        }
      }
      assert done == old(suspendThread) && suspendThread[..n] == suspendThread;
    }

    /** Hand the bits to the n-th waiter and take it off the list. */
    method Resume(n: nat) returns (m: nat)
      requires n < |suspendThread| && suspendThread[n] in wanted
      modifies this
      ensures m == n && currentPriority == old(currentPriority)
      ensures var t := old(suspendThread)[n];
              var got := old(wanted)[t].bits * old(pending);
              && pending == Cleared(old(pending), old(wanted)[t].choice, got)
              && wanted == old(wanted)[t := old(wanted)[t].(bits := got)]
      ensures |suspendThread| == |old(suspendThread)| - 1
      ensures suspendThread[..n] == old(suspendThread)[..n] && suspendThread[n..] == old(suspendThread)[n + 1..]
    {
      m := n;
      var thread := suspendThread[n];
      var got := wanted[thread].bits * pending;
      wanted := wanted[thread := wanted[thread].(bits := got)];
      if wanted[thread].choice.clear { pending := pending - got; }
      suspendThread := suspendThread[..n] + suspendThread[n + 1..];
    }

    /** rt_event_recv by thread t up to the point where t goes on or is suspended. */
    method Recv(t: Tid, bits: Bits, choice: Choice, timeout: int) returns (r: Status)
      requires Valid() && t in currentPriority && t !in suspendThread && (choice.all || choice.any)
      modifies this
      ensures Valid() && Abs() == EventSpec.Recv(old(Abs()), t, bits, choice, flag, timeout != 0).0
      ensures r == EventSpec.Recv(old(Abs()), t, bits, choice, flag, timeout != 0).1
    {
      RecvKeepsQuiet(Abs(), t, bits, choice, flag, timeout != 0);
      if bits == {} { return Failed; }
      var ok := false;
      if choice.all {
        ok := pending * bits == bits;
      } else if choice.any {
        ok := pending * bits != {};
      }
      assert ok == Satisfied(Want(bits, choice), pending) by {
        assert pending * bits == bits * pending;
      }
      if ok {
        r := Received(pending * bits);
        if choice.clear { pending := pending - bits; }
      } else if timeout == 0 {
        r := TimedOut;
      } else {
        wanted := wanted[t := Want(bits, choice)];
        suspendThread := ListSuspend(suspendThread, t, flag, currentPriority);
        r := Suspended;
      }
    }

    /** The thread timer of a waiting thread fires. */
    method Timeout(t: Tid)
      requires Valid() && t in suspendThread
      modifies this`suspendThread
      ensures Valid() && Abs() == Expire(old(Abs()), t)
    {
      ExpireKeepsQuiet(Abs(), t);
      suspendThread := Without(suspendThread, t);
    }
  }
}
