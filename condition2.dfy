// nachos.threads.Condition2: a condition variable whose waiters form a FIFO
// queue; every operation needs the associated lock to be held.

module Condition2 {
  import opened Machine
  import Alarm

  class Condition2 {
    const conditionLock: Lock
    var cvqueue: seq<Thread>

    /** A new condition variable has no waiters. */
    constructor (conditionLock: Lock)
      ensures this.conditionLock == conditionLock && cvqueue == []
    {
      this.conditionLock := conditionLock;
      cvqueue := [];
    }

    /**
     * sleep(): the current thread joins the tail of the queue, releases the
     * lock and blocks; it holds the lock again when the call returns.
     */
    method Sleep(current: Thread)
      requires conditionLock.held
      modifies this
      ensures cvqueue == old(cvqueue) + [current]
      ensures conditionLock.held
    {
      cvqueue := cvqueue + [current];
    }

    /** wake(): the head of the queue is removed and readied; a no-op on an empty queue. */
    method Wake() returns (woken: seq<Thread>)
      requires conditionLock.held
      modifies this
      ensures old(cvqueue) == [] ==> woken == [] && cvqueue == []
      ensures old(cvqueue) != [] ==> woken == [old(cvqueue)[0]] && cvqueue == old(cvqueue)[1..]
    {
      woken := [];
      if |cvqueue| != 0 {
        var thrd := cvqueue[0];
        cvqueue := cvqueue[1..];
        woken := [thrd];
      }
    }

    /** wakeAll(): every waiter is readied, earliest first, and the queue ends empty. */
    method WakeAll() returns (woken: seq<Thread>)
      requires conditionLock.held
      modifies this
      ensures woken == old(cvqueue) && cvqueue == []
    {
      woken := [];
      while |cvqueue| != 0
        invariant woken + cvqueue == old(cvqueue)
        decreases |cvqueue|
      {
        var w := Wake();
        woken := woken + w;
      }
    }

    /**
     * sleepFor(timeout), first half: the lock is released and the thread
     * registers with the alarm for `timeout` ticks from `now`, blocking when
     * the alarm accepted the registration. The waiter queue is not touched.
     */
    method SleepFor(current: Thread, now: int, timeout: int, alarm: Alarm.Alarm) returns (blocked: bool)
      requires conditionLock.held && alarm.Valid()
      modifies conditionLock, alarm
      ensures alarm.Valid() && !conditionLock.held
      ensures blocked == (timeout >= 0)
      ensures alarm.Registrations() ==
        old(alarm.Registrations()) + if timeout >= 0 then [Alarm.Registration(current, now + timeout)] else []
    {
      conditionLock.Release();
      blocked := alarm.WaitUntil(current, now, timeout);
    }

    /**
     * sleepFor(timeout), second half, run when the thread is running again:
     * any registration still pending is cancelled and the lock reacquired.
     * The waiter queue is not touched.
     */
    method SleepForResume(current: Thread, alarm: Alarm.Alarm) returns (cancelled: bool)
      requires alarm.Valid()
      modifies conditionLock, alarm
      ensures alarm.Valid() && conditionLock.held
      ensures cancelled == (current in old(alarm.blockedList))
      ensures !cancelled ==> alarm.Registrations() == old(alarm.Registrations())
      ensures cancelled ==>
        var i := Alarm.IndexOf(old(alarm.blockedList), current);
        alarm.Registrations() == old(alarm.Registrations())[..i] + old(alarm.Registrations())[i + 1..]
    {
      var readied;
      cancelled, readied := alarm.Cancel(current);
      conditionLock.Acquire();
    }
  }
}
