/** The mutex as ipc.c runs it: fields updated in place. */
module MutexObject {
  import opened Options
  import opened IpcList
  import opened MutexSpec

  class RtMutex {
    var value: nat
    var owner: Option<Tid>
    var originalPriority: nat
    var hold: nat
    var suspendThread: seq<Tid>
    var currentPriority: map<Tid, nat>    // of every thread
    ghost var since: map<Tid, nat>
    ghost var clock: nat
    const flag: Flag

    ghost function Abs(): Mutex
      reads this
    {
      Mutex(value, owner, originalPriority, hold, suspendThread, currentPriority, since, clock)
    }

    /** rt_mutex_init. */
    constructor (flag: Flag, prio: map<Tid, nat>)
      ensures Abs() == Fresh(prio) && this.flag == flag
    {
      value, owner, originalPriority, hold := 1, None, NO_PRIORITY, 0;
      suspendThread, currentPriority := [], prio;
      this.flag := flag;
      since, clock := map[], 0;
    }

    /** rt_mutex_take by thread t up to the point where t goes on or is suspended. */
    method Take(t: Tid, time: int) returns (r: Status)
      requires Sound(Abs()) && Running(Abs(), t)
      modifies this
      ensures Abs() == MutexSpec.Take(old(Abs()), t, flag, time != 0).0
      ensures r == MutexSpec.Take(old(Abs()), t, flag, time != 0).1
      ensures Sound(Abs()) <==> NestsOk(old(Abs()), OpTake(t, time != 0))
    {
      TakeKeepsSound(Abs(), t, flag, time != 0);
      if owner == Some(t) {
        hold := Inc(hold);
        return Ok;
      }
      if value > 0 {
        value := value - 1;
        owner := Some(t);
        originalPriority := currentPriority[t];
        hold := Inc(hold);
        return Ok;
      }
      if time == 0 { return TimedOut; }
      if currentPriority[t] < currentPriority[owner.value] {
        currentPriority := currentPriority[owner.value := currentPriority[t]];
      }
      suspendThread := ListSuspend(suspendThread, t, flag, currentPriority);
      since, clock := since[t := clock], clock + 1;
      return Suspended;
    }

    /** rt_mutex_release by thread t. */
    method Release(t: Tid) returns (r: Status)
      requires Sound(Abs()) && Running(Abs(), t)
      modifies this
      ensures Abs() == MutexSpec.Release(old(Abs()), t).0 && r == MutexSpec.Release(old(Abs()), t).1
      ensures Sound(Abs())
    {
      ReleaseKeepsSound(Abs(), t);
      if owner != Some(t) { return Failed; }
      hold := Dec(hold);
      if hold == 0 {
        if originalPriority != currentPriority[t] {
          currentPriority := currentPriority[t := originalPriority];
        }
        assert currentPriority == old(currentPriority)[t := originalPriority];
        if suspendThread != [] {
          var thread := suspendThread[0];
          owner := Some(thread);
          originalPriority := currentPriority[thread];
          hold := Inc(hold);
          suspendThread := suspendThread[1..];
        } else {
          value := value + 1;
          owner := None;
          originalPriority := NO_PRIORITY;
        }
      }
      return Ok;
    }

    /** The thread timer of a waiting thread fires. */
    method Timeout(t: Tid)
      requires Sound(Abs()) && t in suspendThread
      modifies this`suspendThread
      ensures Abs() == Expire(old(Abs()), t) && Sound(Abs())
    {
      ExpireKeepsSound(Abs(), t);
      suspendThread := Without(suspendThread, t);
    }
  }
}
