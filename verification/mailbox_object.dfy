/** The mailbox as ipc.c runs it: a buffer, its offsets and its lists. */
module MailboxObject {
  import opened IpcList
  import opened MailboxSpec

  class RtMailbox {
    const msgPool: array<int>
    var entry: nat
    var inOffset: nat
    var outOffset: nat
    var suspendThread: seq<Tid>
    var suspendSenderThread: seq<Tid>
    var currentPriority: map<Tid, nat>
    const flag: Flag
    ghost var wokenRx: set<Tid>
    ghost var wokenTx: set<Tid>
    ghost var sent: seq<int>
    ghost var got: seq<int>

    ghost function Abs(): Mailbox
      reads this, msgPool
    {
      Mailbox(msgPool[..], entry, inOffset, outOffset, suspendThread, suspendSenderThread, wokenRx, wokenTx,
              currentPriority, sent, got)
    }

    ghost predicate Valid()
      reads this, msgPool
    {
      Inv(Abs())
    }

    /** rt_mb_init. */
    constructor (size: nat, flag: Flag, prio: map<Tid, nat>)
      ensures Valid() && Queue(Abs()) == [] && this.flag == flag && msgPool.Length == size
      ensures suspendThread == [] && suspendSenderThread == [] && currentPriority == prio
    {
      msgPool := new int[size];
      entry, inOffset, outOffset := 0, 0, 0;
      suspendThread, suspendSenderThread, currentPriority := [], [], prio;
      this.flag := flag;
      wokenRx, wokenTx, sent, got := {}, {}, [], [];
    }

    /** Store a mail at `in_offset`. */
    method Store(value: int)
      requires RingOk(Abs()) && entry < msgPool.Length
      modifies this, msgPool
      ensures Abs() == old(Abs()).(pool := old(msgPool[..])[old(inOffset) := value],
                                   inOffset := Next(old(inOffset), msgPool.Length), entry := old(entry) + 1,
                                   sent := old(sent) + [value])
    {
      msgPool[inOffset] := value;
      inOffset := inOffset + 1;
      if inOffset >= msgPool.Length { inOffset := 0; }
      entry := entry + 1;
      sent := sent + [value];
    }

    /** Take the mail at `out_offset`. */
    method Fetch() returns (value: int)
      requires RingOk(Abs()) && entry > 0
      modifies this
      ensures value == old(msgPool[outOffset])
      ensures Abs() == old(Abs()).(outOffset := Next(old(outOffset), msgPool.Length), entry := old(entry) - 1,
                                   got := old(got) + [value])
    {
      value := msgPool[outOffset];
      outOffset := outOffset + 1;
      if outOffset >= msgPool.Length { outOffset := 0; }
      entry := entry - 1;
      got := got + [value];
    }

    /** The body of one critical section of rt_mb_send_wait. */
    method SendStep(t: Tid, value: int, timeout: int) returns (r: Status)
      requires RingOk(Abs()) && t in currentPriority && forall w :: w in suspendSenderThread ==> w in currentPriority
      modifies this, msgPool
      ensures Abs() == MailboxSpec.Send(old(Abs()), t, value, flag, timeout != 0).0
      ensures r == MailboxSpec.Send(old(Abs()), t, value, flag, timeout != 0).1
    {
      wokenTx := wokenTx - {t};
      if entry == msgPool.Length {
        if timeout == 0 { return Full; }
        suspendSenderThread := ListSuspend(suspendSenderThread, t, flag, currentPriority);
        return Suspended;
      }
      Store(value);
      if suspendThread != [] {
        wokenRx := wokenRx + {suspendThread[0]};
        suspendThread := suspendThread[1..];
      }
      return Ok;
    }

    /** The body of one critical section of rt_mb_recv. */
    method RecvStep(t: Tid, timeout: int) returns (r: Status)
      requires RingOk(Abs()) && t in currentPriority && forall w :: w in suspendThread ==> w in currentPriority
      modifies this
      ensures Abs() == MailboxSpec.Recv(old(Abs()), t, flag, timeout != 0).0
      ensures r == MailboxSpec.Recv(old(Abs()), t, flag, timeout != 0).1
    {
      wokenRx := wokenRx - {t};
      if entry == 0 {
        if timeout == 0 { return TimedOut; }
        suspendThread := ListSuspend(suspendThread, t, flag, currentPriority);
        return Suspended;
      }
      var value := Fetch();
      if suspendSenderThread != [] {
        wokenTx := wokenTx + {suspendSenderThread[0]};
        suspendSenderThread := suspendSenderThread[1..];
      }
      return Mail(value);
    }

    /** One critical section of rt_mb_send_wait. */
    method Send(t: Tid, value: int, timeout: int) returns (r: Status)
      requires Valid() && MaySend(Abs(), t)
      modifies this, msgPool
      ensures Valid() && Abs() == MailboxSpec.Send(old(Abs()), t, value, flag, timeout != 0).0
      ensures r == MailboxSpec.Send(old(Abs()), t, value, flag, timeout != 0).1
    {
      SendKeepsInv(Abs(), t, value, flag, timeout != 0);
      r := SendStep(t, value, timeout);
    }

    /** One critical section of rt_mb_recv. */
    method Recv(t: Tid, timeout: int) returns (r: Status)
      requires Valid() && MayRecv(Abs(), t)
      modifies this
      ensures Valid() && Abs() == MailboxSpec.Recv(old(Abs()), t, flag, timeout != 0).0
      ensures r == MailboxSpec.Recv(old(Abs()), t, flag, timeout != 0).1
    {
      RecvKeepsInv(Abs(), t, flag, timeout != 0);
      r := RecvStep(t, timeout);
    }

    /** rt_mb_control with RT_IPC_CMD_RESET: everybody is resumed with an error. */
    method Reset()
      requires Valid()
      modifies this
      ensures Valid() && Queue(Abs()) == [] && suspendThread == [] && suspendSenderThread == []
      ensures currentPriority == old(currentPriority)
    {
      suspendThread, suspendSenderThread := [], [];
      entry, inOffset, outOffset := 0, 0, 0;
      sent, got := [], [];
    }
  }
}
