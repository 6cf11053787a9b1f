/**
  What Invoke delivers when the callbacks leave the registry alone: the calls it makes,
  in order, and whether each call's exception was caught and logged.
 */
module Dispatcher {
  import opened Entries
  import opened Registry

  /** One callback invocation; `logged` is true when it threw and the exception went to the log. */
  datatype Call = Call(action: CallbackId, logged: bool)

  /** The end of an Invoke: the calls it made, or the KeyNotFoundException of the `[channel][type]` lookup. */
  datatype Outcome = Delivered(calls: seq<Call>) | KeyNotFound

  /** The actions of a list of entries, in list order. */
  function Actions(s: seq<Entry>): seq<CallbackId>
  {
    seq(|s|, i requires 0 <= i < |s| => s[i].action)
  }

  /** The callbacks an outcome called, in call order (none for KeyNotFound). */
  function Called(o: Outcome): seq<CallbackId>
  {
    match o
    case Delivered(calls) => seq(|calls|, i requires 0 <= i < |calls| => calls[i].action)
    case KeyNotFound => []
  }

  /**
    The calls made by walking a bucket: each entry's callback once, in bucket order; one
    that throws is logged and the walk goes on with the next.
   */
  function Deliver(entries: seq<Entry>, throws: CallbackId -> bool): (calls: seq<Call>)
    ensures |calls| == |entries|
    ensures forall i :: 0 <= i < |entries| ==>
      calls[i] == Call(entries[i].action, throws(entries[i].action))
  {
    if entries == [] then []
    else [Call(entries[0].action, throws(entries[0].action))] + Deliver(entries[1..], throws)
  }

  /**
    Invoke for callbacks that do not touch the registry: an absent channel delivers nothing,
    a present channel without the type bucket fails the lookup, otherwise the bucket is walked.
   */
  function Dispatch(r: Listeners, c: int, t: TypeTag, throws: CallbackId -> bool): (o: Outcome)
    ensures o.KeyNotFound? <==> c in r && t !in r[c]
    ensures o.Delivered? ==> |o.calls| == |Bucket(r, c, t)|
    ensures o.Delivered? ==> forall i :: 0 <= i < |o.calls| ==>
      o.calls[i] == Call(Bucket(r, c, t)[i].action, throws(Bucket(r, c, t)[i].action))
  {
    if c !in r then Delivered([])
    else if t !in r[c] then KeyNotFound
    else Delivered(Deliver(r[c][t], throws))
  }

  /**
    Order: where bucket (c, t) exists, Invoke calls exactly its callbacks in registration
    order, once per entry, whatever the callbacks throw; where channel c is absent it calls
    none; where only the type bucket is absent the lookup fails.
   */
  lemma DispatchOrder(r: Listeners, c: int, t: TypeTag, throws: CallbackId -> bool)
    ensures c in r && t in r[c] ==>
      Dispatch(r, c, t, throws).Delivered? && Called(Dispatch(r, c, t, throws)) == Actions(Bucket(r, c, t))
    ensures c !in r ==> Dispatch(r, c, t, throws) == Delivered([])
    ensures c in r && t !in r[c] ==> Dispatch(r, c, t, throws) == KeyNotFound
  {
    if c in r && t in r[c] {
      var o := Dispatch(r, c, t, throws);
      assert |Called(o)| == |Actions(Bucket(r, c, t))|;
      forall i | 0 <= i < |Called(o)| ensures Called(o)[i] == Actions(Bucket(r, c, t))[i] {
      }
    }
  }

  /**
    Isolation: which callbacks run does not depend on which of them throw, and a call is
    logged exactly when its callback throws; no exception ends the walk or reaches the caller.
   */
  lemma Isolation(r: Listeners, c: int, t: TypeTag, throws1: CallbackId -> bool, throws2: CallbackId -> bool)
    ensures Called(Dispatch(r, c, t, throws1)) == Called(Dispatch(r, c, t, throws2))
    ensures Dispatch(r, c, t, throws1).KeyNotFound? == Dispatch(r, c, t, throws2).KeyNotFound?
    ensures Dispatch(r, c, t, throws1).Delivered? ==>
      forall i :: 0 <= i < |Dispatch(r, c, t, throws1).calls| ==>
        Dispatch(r, c, t, throws1).calls[i].logged == throws1(Dispatch(r, c, t, throws1).calls[i].action)
  {
    DispatchOrder(r, c, t, throws1);
    DispatchOrder(r, c, t, throws2);
  }

  /** Channel partition: registering on channel c1 changes nothing that Invoke does on another channel. */
  lemma ChannelPartition(r: Listeners, c1: int, c2: int, t: TypeTag, t': TypeTag, cb: CallbackId, throws: CallbackId -> bool)
    requires c1 != c2
    ensures Dispatch(Added(r, c1, t, cb), c2, t', throws) == Dispatch(r, c2, t', throws)
  {
  }

  /** Publishing on a bucket that exists but holds no entry calls nothing. */
  lemma EmptyBucketCallsNothing(r: Listeners, c: int, t: TypeTag, throws: CallbackId -> bool)
    requires Bucket(r, c, t) == []
    requires c !in r || t in r[c]
    ensures Dispatch(r, c, t, throws) == Delivered([])
  {
  }

  /**
    Removal: once a callback registered at most once in bucket (c, t) is removed, Invoke
    on (c, t) no longer calls it.
   */
  lemma RemovedIsNotCalled(r: Listeners, c: int, t: TypeTag, cb: CallbackId, throws: CallbackId -> bool)
    requires WellFormed(r)
    requires multiset(Bucket(r, c, t))[Entry(c, t, cb)] <= 1
    ensures cb !in Called(Dispatch(Removed(r, c, t, cb), c, t, throws))
  {
    var r' := Removed(r, c, t, cb);
    RemoveKeepsWellFormed(r, c, t, cb);
    DispatchOrder(r', c, t, throws);
    if Entry(c, t, cb) in Bucket(r, c, t) {
      RemoveTakesOneOccurrence(r, c, t, cb);
    }
    assert Entry(c, t, cb) !in Bucket(r', c, t);
  }

  /** The actions of a concatenation are the concatenated actions. */
  lemma ActionsAppend(s: seq<Entry>, u: seq<Entry>)
    ensures Actions(s + u) == Actions(s) + Actions(u)
  {
    assert |Actions(s + u)| == |Actions(s) + Actions(u)|;
    forall i | 0 <= i < |s + u| ensures Actions(s + u)[i] == (Actions(s) + Actions(u))[i] {
      if i < |s| { assert (s + u)[i] == s[i]; } else { assert (s + u)[i] == u[i - |s|]; }
    }
  }

  /** Duplicates: a callback registered twice is called twice per Invoke. */
  lemma DuplicateCalledTwice(r: Listeners, c: int, t: TypeTag, cb: CallbackId, throws: CallbackId -> bool)
    ensures Called(Dispatch(Added(Added(r, c, t, cb), c, t, cb), c, t, throws)) ==
            Actions(Bucket(r, c, t)) + [cb, cb]
  {
    var s, e := Bucket(r, c, t), Entry(c, t, cb);
    AddTwiceKeepsBoth(r, c, t, cb);
    CalledAfter(Added(Added(r, c, t, cb), c, t, cb), c, t, s + [e, e], throws);
    ActionsAppend(s, [e, e]);
    assert Actions([e, e]) == [cb, cb];
  }

  /**
    Duplicates: after two registrations of a callback that was not in the bucket, one
    RemoveListener leaves it registered, and called, once.
   */
  lemma RemoveOnceStillCalledOnce(r: Listeners, c: int, t: TypeTag, cb: CallbackId, throws: CallbackId -> bool)
    requires WellFormed(r)
    requires Entry(c, t, cb) !in Bucket(r, c, t)
    ensures Called(Dispatch(Removed(Added(Added(r, c, t, cb), c, t, cb), c, t, cb), c, t, throws)) ==
            Actions(Bucket(r, c, t)) + [cb]
  {
    var s, e := Bucket(r, c, t), Entry(c, t, cb);
    RemoveOnceLeavesDuplicate(r, c, t, cb);
    CalledAfter(Removed(Added(Added(r, c, t, cb), c, t, cb), c, t, cb), c, t, s + [e], throws);
    ActionsAppend(s, [e]);
    assert Actions([e]) == [cb];
  }

  /** Invoke on a bucket known to hold `s` calls the actions of `s`. */
  lemma CalledAfter(r: Listeners, c: int, t: TypeTag, s: seq<Entry>, throws: CallbackId -> bool)
    requires Bucket(r, c, t) == s && s != []
    ensures Called(Dispatch(r, c, t, throws)) == Actions(s)
  {
    DispatchOrder(r, c, t, throws);
  }

  /**
    Register cb1, cb2, cb3 in that order on an empty bucket and publish: they are called in
    that order. Remove cb2 and publish again: cb1 and cb3 are called, in that order.
   */
  lemma RegisterPublishRemoveScenario(r: Listeners, c: int, t: TypeTag, cb1: CallbackId, cb2: CallbackId, cb3: CallbackId, throws: CallbackId -> bool)
    requires Bucket(r, c, t) == []
    requires cb1 != cb2
    ensures Called(Dispatch(Added(Added(Added(r, c, t, cb1), c, t, cb2), c, t, cb3), c, t, throws)) == [cb1, cb2, cb3]
    ensures Called(Dispatch(Removed(Added(Added(Added(r, c, t, cb1), c, t, cb2), c, t, cb3), c, t, cb2), c, t, throws)) == [cb1, cb3]
  {
    var e1, e2, e3 := Entry(c, t, cb1), Entry(c, t, cb2), Entry(c, t, cb3);
    var r3 := Added(Added(Added(r, c, t, cb1), c, t, cb2), c, t, cb3);
    AddThree(r, c, t, cb1, cb2, cb3);
    CalledAfter(r3, c, t, [e1, e2, e3], throws);
    assert Actions([e1, e2, e3]) == [cb1, cb2, cb3];
    RemoveSecondOfThree(r3, c, t, cb1, cb2, cb3);
    CalledAfter(Removed(r3, c, t, cb2), c, t, [e1, e3], throws);
    assert Actions([e1, e3]) == [cb1, cb3];
  }

  /** Three AddListener calls on an empty bucket leave the three entries in call order. */
  lemma AddThree(r: Listeners, c: int, t: TypeTag, cb1: CallbackId, cb2: CallbackId, cb3: CallbackId)
    requires Bucket(r, c, t) == []
    ensures Bucket(Added(Added(Added(r, c, t, cb1), c, t, cb2), c, t, cb3), c, t) ==
            [Entry(c, t, cb1), Entry(c, t, cb2), Entry(c, t, cb3)]
  {
    var r1 := Added(r, c, t, cb1);
    assert Bucket(r1, c, t) == [Entry(c, t, cb1)];
    var r2 := Added(r1, c, t, cb2);
    assert Bucket(r2, c, t) == [Entry(c, t, cb1), Entry(c, t, cb2)];
  }

  /** Removing the second of three entries, the first match for its callback, leaves the other two in order. */
  lemma RemoveSecondOfThree(r: Listeners, c: int, t: TypeTag, cb1: CallbackId, cb2: CallbackId, cb3: CallbackId)
    requires Bucket(r, c, t) == [Entry(c, t, cb1), Entry(c, t, cb2), Entry(c, t, cb3)]
    requires cb1 != cb2
    ensures Bucket(Removed(r, c, t, cb2), c, t) == [Entry(c, t, cb1), Entry(c, t, cb3)]
  {
    var s := Bucket(r, c, t);
    assert FindFirst(s, t, cb2) == Some(1) by {
      assert !Matches(s[0], t, cb2) && Matches(s[1], t, cb2);
    }
    assert s[..1] + s[2..] == [Entry(c, t, cb1), Entry(c, t, cb3)];
  }
}
