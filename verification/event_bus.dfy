/**
  The EventBus of Runtime/EventBus.cs: the static `listenersDictionary` becomes a field
  of one EventBus object, and the generic methods take the static type
  argument `T` as a TypeTag.
 */
module EventBusSystem {
  import opened Entries
  import opened Registry
  import opened Dispatcher
  import opened Reentrant

  class EventBus {
    /** `listenersDictionary`: channel -> event type -> listener list. */
    var listenersDictionary: Listeners

    ghost predicate Valid()
      reads this
    {
      WellFormed(listenersDictionary)
    }

    /** The dictionary starts out empty. */
    constructor ()
      ensures Valid() && listenersDictionary == map[]
    {
      listenersDictionary := map[];
    }

    /**
      AddListener<T>(action, channel): create the channel map and the type bucket when
      missing, then append a new entry, even when `action` is already registered.
     */
    method AddListener(t: TypeTag, action: CallbackId, channel: int)
      requires Valid()
      modifies this
      ensures Valid()
      ensures listenersDictionary == Added(old(listenersDictionary), channel, t, action)
      ensures Bucket(listenersDictionary, channel, t) == Bucket(old(listenersDictionary), channel, t) + [Entry(channel, t, action)]
    {
      AddKeepsWellFormed(listenersDictionary, channel, t, action);
      ghost var before := listenersDictionary;
      var listener := Entry(channel, t, action);
      if channel !in listenersDictionary {
        listenersDictionary := listenersDictionary[channel := map[]];
      }
      if t !in listenersDictionary[channel] {
        listenersDictionary := listenersDictionary[channel := listenersDictionary[channel][t := []]];
      }
      listenersDictionary := listenersDictionary[channel := listenersDictionary[channel][t := listenersDictionary[channel][t] + [listener]]];
      assert listenersDictionary[channel] == Added(before, channel, t, action)[channel];
    }

    /**
      RemoveListener<T>(action, channel): return when the channel, the type bucket or a
      matching entry is missing; otherwise remove the first entry whose action equals `action`.
     */
    method RemoveListener(t: TypeTag, action: CallbackId, channel: int)
      requires Valid()
      modifies this
      ensures Valid()
      ensures listenersDictionary == Removed(old(listenersDictionary), channel, t, action)
      ensures Entry(channel, t, action) !in Bucket(old(listenersDictionary), channel, t) ==> listenersDictionary == old(listenersDictionary)
    {
      RemoveKeepsWellFormed(listenersDictionary, channel, t, action);
      RemoveNoOpIffAbsent(listenersDictionary, channel, t, action);
      if channel !in listenersDictionary { return; }
      if t !in listenersDictionary[channel] { return; }
      var entries := listenersDictionary[channel][t];
      var entry := FindFirst(entries, t, action);
      if entry.None? { return; }
      var k := entry.value;
      listenersDictionary := listenersDictionary[channel := listenersDictionary[channel][t := entries[..k] + entries[k + 1..]]];
    }

    /**
      Invoke<T>(message, channel) with callbacks that leave the registry alone: nothing
      when the channel is absent, the lookup failure when only the type bucket is, and
      otherwise every entry's callback in bucket order, each exception caught and logged.
     */
    method Invoke(t: TypeTag, channel: int, throws: CallbackId -> bool) returns (outcome: Outcome)
      requires Valid()
      ensures outcome == Dispatch(listenersDictionary, channel, t, throws)
    {
      if channel !in listenersDictionary { return Delivered([]); }
      if t !in listenersDictionary[channel] { return KeyNotFound; }
      var entries := listenersDictionary[channel][t];
      var calls: seq<Call> := [];
      var i := 0;
      while i < |entries|
        invariant 0 <= i <= |entries|
        invariant |calls| == i
        invariant forall k :: 0 <= k < i ==> calls[k] == Call(entries[k].action, throws(entries[k].action))
      {
        // The `is EventBusEntry<T>` test always succeeds: every entry of bucket t has type t.
        assert entries[i].eventType == t;
        var threw := throws(entries[i].action);
        calls := calls + [Call(entries[i].action, threw)];
        i := i + 1;
      }
      outcome := Delivered(calls);
    }

    /** One registry call made by a callback while it runs. */
    method PerformOne(op: Op)
      requires Valid()
      modifies this
      ensures Valid()
      ensures listenersDictionary == Apply(old(listenersDictionary), op)
    {
      match op {
        case AddListener(t, cb, c) => this.AddListener(t, cb, c);
        case RemoveListener(t, cb, c) => this.RemoveListener(t, cb, c);
      }
    }

    /** The registry calls one callback makes while it runs, in order. */
    method Perform(ops: seq<Op>)
      requires Valid()
      modifies this
      ensures Valid()
      ensures listenersDictionary == ApplyAll(old(listenersDictionary), ops)
    {
      var j := 0;
      while j < |ops|
        invariant 0 <= j <= |ops|
        invariant Valid()
        invariant listenersDictionary == ApplyAll(old(listenersDictionary), ops[..j])
      {
        ApplyPrefix(old(listenersDictionary), ops, j);
        PerformOne(ops[j]);
        j := j + 1;
      }
      assert ops[..|ops|] == ops;
    }

    /**
      Invoke<T>(message, channel) with callbacks that may call AddListener or
      RemoveListener. `effects` gives each callback's registry calls; `fuel` bounds the
      index of the walk, which the source does not.
     */
    method InvokeReentrant(t: TypeTag, channel: int, throws: CallbackId -> bool,
                           effects: CallbackId -> seq<Op>, fuel: nat) returns (outcome: Outcome)
      requires Valid()
      modifies this
      ensures Valid()
      ensures (outcome, listenersDictionary) == ReentrantDispatch(old(listenersDictionary), channel, t, throws, effects, fuel)
    {
      if channel !in listenersDictionary { return Delivered([]); }
      if t !in listenersDictionary[channel] { return KeyNotFound; }
      var calls := WalkBucket(t, channel, throws, effects, fuel);
      outcome := Delivered(calls);
    }

    /**
      The loop of Invoke: it re-reads the length of bucket (channel, t) before every step,
      so it sees the registry calls the callbacks made so far.
     */
    method WalkBucket(t: TypeTag, channel: int, throws: CallbackId -> bool,
                      effects: CallbackId -> seq<Op>, fuel: nat) returns (calls: seq<Call>)
      requires Valid()
      requires channel in listenersDictionary && t in listenersDictionary[channel]
      modifies this
      ensures Valid()
      ensures (listenersDictionary, calls) == Walk(old(listenersDictionary), channel, t, throws, effects, 0, fuel)
    {
      ghost var start := listenersDictionary;
      calls := [];
      var i := 0;
      assert [] + Walk(start, channel, t, throws, effects, 0, fuel).1 == Walk(start, channel, t, throws, effects, 0, fuel).1;
      while i < |listenersDictionary[channel][t]| && i < fuel
        invariant Valid()
        invariant channel in listenersDictionary && t in listenersDictionary[channel]
        invariant Walk(start, channel, t, throws, effects, 0, fuel).0 == Walk(listenersDictionary, channel, t, throws, effects, i, fuel).0
        invariant Walk(start, channel, t, throws, effects, 0, fuel).1 == calls + Walk(listenersDictionary, channel, t, throws, effects, i, fuel).1
        decreases fuel - i
      {
        var listener := listenersDictionary[channel][t][i];
        // The `is EventBusEntry<T>` test always succeeds: every entry of bucket t has type t.
        assert listener.eventType == t;
        var a := listener.action;
        WalkAdvance(start, listenersDictionary, channel, t, throws, effects, i, fuel, calls);
        Perform(effects(a));
        calls := calls + [Call(a, throws(a))];
        i := i + 1;
      }
      assert Walk(listenersDictionary, channel, t, throws, effects, i, fuel) == (listenersDictionary, []);
      assert calls + [] == calls;
    }
  }
}
