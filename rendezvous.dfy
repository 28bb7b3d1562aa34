// nachos.threads.Rendezvous: threads exchange values through a list of
// pending exchanges, one per tag in use. One call of exchange is modelled
// as explicit steps: a thread arrives, and may block; when woken it runs
// the same test-and-exchange step again.

module Rendezvous {

  /**
   * ThreadData: the tag, the value last deposited, and whether the entry
   * has been answered once already. Its condition variable is represented
   * by the Woke outcome below.
   */
  datatype Pending = Pending(tag: int, value: int, toBeRemoved: bool)

  /** What one step tells the calling thread. */
  datatype Outcome =
    | Blocked                                  // deposited its value and sleeps on the entry
    | Returned(value: int, wokePartner: bool)  // exchange returns `value`; wokePartner: the entry's waiter was woken

  /** tagExist: the lowest index whose entry has `tag`, or -1. */
  function TagExist(list: seq<Pending>, tag: int): (i: int)
    ensures -1 <= i < |list|
    ensures i == -1 <==> forall j :: 0 <= j < |list| ==> list[j].tag != tag
    ensures i >= 0 ==> list[i].tag == tag && forall j :: 0 <= j < i ==> list[j].tag != tag
  {
    if list == [] then -1
    else if list[0].tag == tag then 0
    else
      var k := TagExist(list[1..], tag);
      if k == -1 then -1 else k + 1
  }

  /** The entries for one tag, in list order. */
  function ForTag(list: seq<Pending>, tag: int): seq<Pending>
  {
    if list == [] then []
    else (if list[0].tag == tag then [list[0]] else []) + ForTag(list[1..], tag)
  }

  /** At most one pending exchange per tag. */
  ghost predicate UniqueTags(list: seq<Pending>)
  {
    forall i, j :: 0 <= i < j < |list| ==> list[i].tag != list[j].tag
  }

  /**
   * One step of exchange(tag, value) on the list, as a function: the new
   * list and what the calling thread learns.
   */
  function Step(list: seq<Pending>, tag: int, value: int): (seq<Pending>, Outcome)
  {
    var index := TagExist(list, tag);
    if index == -1 then
      (list + [Pending(tag, value, false)], Blocked)
    else
      var old_ := list[index];
      if old_.toBeRemoved then
        (list[..index] + list[index + 1..], Returned(old_.value, false))
      else
        (list[index := Pending(tag, value, true)], Returned(old_.value, true))
  }

  lemma {:induction false} ForTagAppend(a: seq<Pending>, b: seq<Pending>, tag: int)
    ensures ForTag(a + b, tag) == ForTag(a, tag) + ForTag(b, tag)
  {
    if a == [] {
      assert a + b == b;
    } else {
      var head := if a[0].tag == tag then [a[0]] else [];
      assert (a + b)[0] == a[0];
      assert (a + b)[1..] == a[1..] + b;
      assert ForTag(a + b, tag) == head + ForTag(a[1..] + b, tag);
      ForTagAppend(a[1..], b, tag);
      assert ForTag(a, tag) == head + ForTag(a[1..], tag);
      assert head + (ForTag(a[1..], tag) + ForTag(b, tag)) == (head + ForTag(a[1..], tag)) + ForTag(b, tag);
    }
  }

  /** Replacing one entry by one for the same tag leaves the other tags' entries alone. */
  lemma ForTagOtherAfterUpdate(list: seq<Pending>, i: nat, p: Pending, other: int)
    requires i < |list| && list[i].tag != other && p.tag != other
    ensures ForTag(list[i := p], other) == ForTag(list, other)
  {
    var l' := list[i := p];
    assert list == list[..i] + [list[i]] + list[i + 1..];
    assert l' == list[..i] + [p] + list[i + 1..];
    ForTagAppend(list[..i] + [list[i]], list[i + 1..], other);
    ForTagAppend(list[..i], [list[i]], other);
    ForTagAppend(list[..i] + [p], list[i + 1..], other);
    ForTagAppend(list[..i], [p], other);
  }

  lemma ForTagOtherAfterRemove(list: seq<Pending>, i: nat, other: int)
    requires i < |list| && list[i].tag != other
    ensures ForTag(list[..i] + list[i + 1..], other) == ForTag(list, other)
  {
    assert list == list[..i] + [list[i]] + list[i + 1..];
    ForTagAppend(list[..i] + [list[i]], list[i + 1..], other);
    ForTagAppend(list[..i], [list[i]], other);
    ForTagAppend(list[..i], list[i + 1..], other);
  }

  /** A step for one tag never changes the entries of any other tag. */
  lemma StepIsolatesTags(list: seq<Pending>, tag: int, value: int, other: int)
    requires other != tag
    ensures ForTag(Step(list, tag, value).0, other) == ForTag(list, other)
  {
    var index := TagExist(list, tag);
    if index == -1 {
      ForTagAppend(list, [Pending(tag, value, false)], other);
    } else if list[index].toBeRemoved {
      ForTagOtherAfterRemove(list, index, other);
    } else {
      ForTagOtherAfterUpdate(list, index, Pending(tag, value, true), other);
    }
  }

  /** A step keeps at most one pending exchange per tag. */
  lemma StepKeepsTagsUnique(list: seq<Pending>, tag: int, value: int)
    requires UniqueTags(list)
    ensures UniqueTags(Step(list, tag, value).0)
  {
    var index := TagExist(list, tag);
    if index != -1 && list[index].toBeRemoved {
      var l' := list[..index] + list[index + 1..];
      forall i, j | 0 <= i < j < |l'| ensures l'[i].tag != l'[j].tag {
        var i0 := if i < index then i else i + 1;
        var j0 := if j < index then j else j + 1;
        assert l'[i] == list[i0] && l'[j] == list[j0];
      }
    }
  }

  /**
   * The exchange of the source's own self-test, as three steps: A arrives
   * with X and blocks, B arrives with Y and gets X, A resumes and gets Y;
   * no entry for the tag is left, so the tag can be used again.
   */
  lemma TwoPartyExchange(list: seq<Pending>, tag: int, x: int, y: int)
    requires TagExist(list, tag) == -1
    ensures
      var (l1, oa) := Step(list, tag, x);
      var (l2, ob) := Step(l1, tag, y);
      var (l3, oa') := Step(l2, tag, x);
      oa == Blocked && ob == Returned(x, true) && oa' == Returned(y, false) &&
      l3 == list && TagExist(l3, tag) == -1
  {
    var l1 := list + [Pending(tag, x, false)];
    assert TagExist(l1, tag) == |list| by {
      assert l1[|list|].tag == tag;
    }
    var l2 := l1[|list| := Pending(tag, y, true)];
    assert TagExist(l2, tag) == |list| by {
      assert l2[|list|].tag == tag;
      assert forall j :: 0 <= j < |list| ==> l2[j] == list[j];
    }
    assert l2[..|list|] + l2[|list| + 1..] == list;
  }

  class Rendezvous {
    var dataList: seq<Pending>

    constructor ()
      ensures dataList == []
    {
      dataList := [];
    }

    /** tagExist(tag): the list scanned from the front; the first entry with the tag, or -1. */
    method FindTag(tag: int) returns (index: int)
      ensures index == TagExist(dataList, tag)
    {
      var i := 0;
      while i < |dataList|
        invariant 0 <= i <= |dataList|
        invariant forall j :: 0 <= j < i ==> dataList[j].tag != tag
      {
        if dataList[i].tag == tag {
          return i;
        }
        i := i + 1;
      }
      return -1;
    }

    /**
     * One pass of exchange(tag, value) under the lock: called when the
     * thread arrives, and again each time it is woken (the Mesa loop).
     * With no entry for the tag, it appends one and blocks. Otherwise it
     * takes the stored value and puts its own in its place; an entry that
     * was answered already is deleted, otherwise it is marked and its
     * waiter woken.
     */
    method Exchange(tag: int, value: int) returns (o: Outcome)
      modifies this
      ensures (dataList, o) == Step(old(dataList), tag, value)
    {
      var index := FindTag(tag);
      if index == -1 {
        var tData := Pending(tag, value, false);
        dataList := dataList + [tData];
        o := Blocked;
        return;
      }
      ghost var l0 := dataList;
      var toReturn := dataList[index].value;
      dataList := dataList[index := dataList[index].(value := value)];
      var remove := dataList[index].toBeRemoved;
      if remove {
        dataList := dataList[..index] + dataList[index + 1..];
        assert dataList == l0[..index] + l0[index + 1..];
        o := Returned(toReturn, false);
      } else {
        dataList := dataList[index := dataList[index].(toBeRemoved := true)];
        assert dataList == l0[index := Pending(tag, value, true)];
        o := Returned(toReturn, true);
      }
    }
  }
}
