// nachos.threads.Alarm: a table of threads waiting for a wake time, kept as
// two parallel lists and scanned on every timer interrupt.

module Alarm {
  import opened Machine

  /** One row of the table: a blocked thread and the tick it may run again. */
  datatype Registration = Registration(thread: Thread, wakeTime: int)

  /** Pairs the two parallel lists row by row. */
  function Zip(threads: seq<Thread>, times: seq<int>): (r: seq<Registration>)
    requires |threads| == |times|
    ensures |r| == |threads|
    ensures forall i :: 0 <= i < |r| ==> r[i] == Registration(threads[i], times[i])
  {
    seq(|threads|, i requires 0 <= i < |threads| => Registration(threads[i], times[i]))
  }

  /** The rows whose wake time has been reached at tick `now`, in table order. */
  function Due(r: seq<Registration>, now: int): seq<Registration>
  {
    if r == [] then []
    else (if r[0].wakeTime <= now then [r[0]] else []) + Due(r[1..], now)
  }

  /** The rows still waiting at tick `now`, in table order. */
  function Waiting(r: seq<Registration>, now: int): seq<Registration>
  {
    if r == [] then []
    else (if r[0].wakeTime <= now then [] else [r[0]]) + Waiting(r[1..], now)
  }

  function Threads(r: seq<Registration>): (ts: seq<Thread>)
    ensures |ts| == |r| && forall i :: 0 <= i < |r| ==> ts[i] == r[i].thread
  {
    seq(|r|, i requires 0 <= i < |r| => r[i].thread)
  }

  lemma {:induction false} DueAppend(a: seq<Registration>, b: seq<Registration>, now: int)
    ensures Due(a + b, now) == Due(a, now) + Due(b, now)
  {
    if a == [] {
      assert a + b == b;
    } else {
      assert (a + b)[0] == a[0];
      assert (a + b)[1..] == a[1..] + b;
      DueAppend(a[1..], b, now);
    }
  }

  lemma {:induction false} WaitingAppend(a: seq<Registration>, b: seq<Registration>, now: int)
    ensures Waiting(a + b, now) == Waiting(a, now) + Waiting(b, now)
  {
    if a == [] {
      assert a + b == b;
    } else {
      assert (a + b)[0] == a[0];
      assert (a + b)[1..] == a[1..] + b;
      WaitingAppend(a[1..], b, now);
    }
  }

  /** A row is readied at tick `now` exactly when it is in the table and its wake time has come. */
  lemma {:induction false} DueIff(r: seq<Registration>, now: int, x: Registration)
    ensures x in Due(r, now) <==> x in r && x.wakeTime <= now
  {
    if r != [] {
      DueIff(r[1..], now, x);
      assert r == [r[0]] + r[1..];
    }
  }

  /** A row survives the scan exactly when it is in the table and its wake time is still ahead. */
  lemma {:induction false} WaitingIff(r: seq<Registration>, now: int, x: Registration)
    ensures x in Waiting(r, now) <==> x in r && x.wakeTime > now
  {
    if r != [] {
      WaitingIff(r[1..], now, x);
      assert r == [r[0]] + r[1..];
    }
  }

  /** The scan neither loses nor duplicates rows: readied and surviving rows make up the table. */
  lemma {:induction false} ScanPartitions(r: seq<Registration>, now: int)
    ensures multiset(Due(r, now)) + multiset(Waiting(r, now)) == multiset(r)
  {
    if r != [] {
      ScanPartitions(r[1..], now);
      assert r == [r[0]] + r[1..];
    }
  }

  /** After a scan at tick `now` no surviving row is due at `now`. */
  lemma NothingDueSurvives(r: seq<Registration>, now: int)
    ensures forall x :: x in Waiting(r, now) ==> x.wakeTime > now
  {
    forall x | x in Waiting(r, now) ensures x.wakeTime > now {
      WaitingIff(r, now, x);
    }
  }

  /** ArrayList.indexOf: the lowest index holding `t`, or -1. */
  function IndexOf(s: seq<Thread>, t: Thread): (i: int)
    ensures -1 <= i < |s|
    ensures i == -1 <==> t !in s
    ensures i >= 0 ==> s[i] == t && forall j :: 0 <= j < i ==> s[j] != t
  {
    if s == [] then -1
    else if s[0] == t then 0
    else
      var k := IndexOf(s[1..], t);
      if k == -1 then -1 else k + 1
  }

  /** One inspection of the scan, on values: the row at `index` is the next unconsumed row. */
  lemma ScanStep(r0: seq<Registration>, done: nat, cur: seq<Registration>, index: nat, now: int)
    requires index < |cur| && done < |r0|
    requires cur[..index] == Waiting(r0[..done], now) && cur[index..] == r0[done..]
    ensures cur[index] == r0[done]
    ensures r0[done].wakeTime <= now ==>
      (cur[..index] + cur[index + 1..])[..index] == Waiting(r0[..done + 1], now) &&
      (cur[..index] + cur[index + 1..])[index..] == r0[done + 1..] &&
      Due(r0[..done + 1], now) == Due(r0[..done], now) + [r0[done]]
    ensures r0[done].wakeTime > now ==>
      cur[..index + 1] == Waiting(r0[..done + 1], now) &&
      cur[index + 1..] == r0[done + 1..] &&
      Due(r0[..done + 1], now) == Due(r0[..done], now)
  {
    var x := r0[done];
    assert cur[index] == cur[index..][0] == x;
    assert r0[..done + 1] == r0[..done] + [x];
    DueAppend(r0[..done], [x], now);
    WaitingAppend(r0[..done], [x], now);
    assert cur[index + 1..] == cur[index..][1..] == r0[done + 1..];
    if x.wakeTime > now {
      assert cur[..index + 1] == cur[..index] + [x];
    }
  }

  lemma ThreadsSnoc(r: seq<Registration>, x: Registration)
    ensures Threads(r + [x]) == Threads(r) + [x.thread]
  {
  }

  lemma ZipRemove(b: seq<Thread>, w: seq<int>, i: nat)
    requires |b| == |w| && i < |b|
    ensures Zip(b[..i] + b[i + 1..], w[..i] + w[i + 1..]) == Zip(b, w)[..i] + Zip(b, w)[i + 1..]
  {
  }

  class Alarm {
    var blockedList: seq<Thread>
    var waketimeList: seq<int>

    /** The two lists always have the same length. */
    ghost predicate Valid()
      reads this
    {
      |blockedList| == |waketimeList|
    }

    ghost function Registrations(): seq<Registration>
      reads this
      requires Valid()
    {
      Zip(blockedList, waketimeList)
    }

    constructor ()
      ensures Valid() && blockedList == [] && waketimeList == []
    {
      blockedList, waketimeList := [], [];
    }

    /**
     * waitUntil(x) called at tick `now` by `current`: a negative duration
     * returns at once; otherwise the thread is registered for tick now + x
     * and blocks (blocked is true).
     */
    method WaitUntil(current: Thread, now: int, x: int) returns (blocked: bool)
      requires Valid()
      modifies this
      ensures Valid()
      ensures blocked == (x >= 0)
      ensures x < 0 ==> blockedList == old(blockedList) && waketimeList == old(waketimeList)
      ensures x >= 0 ==> blockedList == old(blockedList) + [current]
      ensures x >= 0 ==> waketimeList == old(waketimeList) + [now + x]
      ensures Registrations() == old(Registrations()) + if x >= 0 then [Registration(current, now + x)] else []
    {
      if x < 0 {
        blocked := false;
        return;
      }
      var wakeTime := now + x;
      blockedList := blockedList + [current];
      waketimeList := waketimeList + [wakeTime];
      blocked := true;
    }

    /**
     * timerInterrupt at tick `now`: every row whose wake time has come is
     * removed and its thread readied, in table order; the other rows stay,
     * in their order and with their pairing.
     */
    method TimerInterrupt(now: int) returns (readied: seq<Thread>)
      requires Valid()
      modifies this
      ensures Valid()
      ensures readied == Threads(Due(old(Registrations()), now))
      ensures Registrations() == Waiting(old(Registrations()), now)
    {
      ghost var r0 := Registrations();
      ghost var done := 0;
      var index := 0;
      readied := [];
      while index < |blockedList|
        invariant Valid()
        invariant 0 <= index <= |blockedList|
        invariant 0 <= done <= |r0|
        invariant Registrations()[..index] == Waiting(r0[..done], now)
        invariant Registrations()[index..] == r0[done..]
        invariant readied == Threads(Due(r0[..done], now))
        decreases |blockedList| - index
      {
        ghost var before := Registrations();
        ScanStep(r0, done, before, index, now);
        if now >= waketimeList[index] {
          ThreadsSnoc(Due(r0[..done], now), r0[done]);
          readied := readied + [blockedList[index]];
          ZipRemove(blockedList, waketimeList, index);
          blockedList := blockedList[..index] + blockedList[index + 1..];
          waketimeList := waketimeList[..index] + waketimeList[index + 1..];
        } else {
          index := index + 1;
        }
        done := done + 1;
      }
      assert r0[..done] == r0;
    }

    /**
     * cancel(thread): if the thread has a row, its first row is removed from
     * both lists, the thread is readied and the answer is true; otherwise the
     * table is untouched and the answer is false.
     */
    method Cancel(thread: Thread) returns (found: bool, readied: seq<Thread>)
      requires Valid()
      modifies this
      ensures Valid()
      ensures found == (thread in old(blockedList))
      ensures !found ==> readied == [] && blockedList == old(blockedList) && waketimeList == old(waketimeList)
      ensures found ==> readied == [thread]
      ensures found ==>
        var i := IndexOf(old(blockedList), thread);
        blockedList == old(blockedList)[..i] + old(blockedList)[i + 1..] &&
        waketimeList == old(waketimeList)[..i] + old(waketimeList)[i + 1..] &&
        Registrations() == old(Registrations())[..i] + old(Registrations())[i + 1..]
    {
      var ind := IndexOf(blockedList, thread);
      if ind == -1 {
        found, readied := false, [];
      } else {
        readied := [blockedList[ind]];
        ZipRemove(blockedList, waketimeList, ind);
        blockedList := blockedList[..ind] + blockedList[ind + 1..];
        waketimeList := waketimeList[..ind] + waketimeList[ind + 1..];
        found := true;
      }
    }
  }
}
