/**
  Invoke when callbacks call AddListener or RemoveListener while they run. Invoke reads
  the bucket's length again before every step, and AddListener and RemoveListener change
  the very list it walks (neither ever replaces or drops a list), so the walk sees entries
  appended behind it and shifts when an entry before it is removed.
 */
module Reentrant {
  import opened Entries
  import opened Registry
  import opened Dispatcher

  /** A registry call that a callback makes while it runs: AddListener<T>(action, channel) or RemoveListener<T>(action, channel). */
  datatype Op =
    | AddListener(eventType: TypeTag, action: CallbackId, channel: int)
    | RemoveListener(eventType: TypeTag, action: CallbackId, channel: int)

  /**
    The registry after one registry call: AddListener appends to its bucket, RemoveListener
    shortens its bucket by one entry or leaves the registry alone; neither drops a channel
    or a bucket, and both keep every entry in its own bucket.
   */
  function Apply(r: Listeners, op: Op): (r': Listeners)
    ensures r.Keys <= r'.Keys
    ensures forall c :: c in r ==> r[c].Keys <= r'[c].Keys
    ensures WellFormed(r) ==> WellFormed(r')
    ensures op.AddListener? ==>
      Bucket(r', op.channel, op.eventType) ==
      Bucket(r, op.channel, op.eventType) + [Entry(op.channel, op.eventType, op.action)]
    ensures op.RemoveListener? ==>
      r' == r || |Bucket(r', op.channel, op.eventType)| == |Bucket(r, op.channel, op.eventType)| - 1
  {
    match op
    case AddListener(t, cb, c) =>
      AddKeepsWellFormed(r, c, t, cb); Added(r, c, t, cb)
    case RemoveListener(t, cb, c) =>
      RemoveKeepsWellFormed(r, c, t, cb); Removed(r, c, t, cb)
  }

  /**
    The registry after a callback's registry calls, made in order: no channel and no bucket
    ever disappears, and every entry stays in its own bucket.
   */
  function ApplyAll(r: Listeners, ops: seq<Op>): (r': Listeners)
    ensures r.Keys <= r'.Keys
    ensures forall c :: c in r ==> r[c].Keys <= r'[c].Keys
    ensures WellFormed(r) ==> WellFormed(r')
    decreases |ops|
  {
    if ops == [] then r else Apply(ApplyAll(r, ops[..|ops| - 1]), ops[|ops| - 1])
  }

  /** Making the first j + 1 registry calls is making the first j, then call j. */
  lemma ApplyPrefix(r: Listeners, ops: seq<Op>, j: nat)
    requires j < |ops|
    ensures ApplyAll(r, ops[..j + 1]) == Apply(ApplyAll(r, ops[..j]), ops[j])
  {
    assert ops[..j + 1][..j] == ops[..j];
  }

  /** A callback that makes a single registry call leaves the registry that call makes. */
  lemma ApplySingle(r: Listeners, op: Op)
    ensures ApplyAll(r, [op]) == Apply(r, op)
  {
    assert [op][..0] == [];
  }

  /**
    The walk of Invoke over bucket (c, t) from index i: while i is below the bucket's
    current length, call the entry at i, let its registry calls take effect, and move to
    i + 1. The walk also stops at index `fuel`, a bound the source does not have.
    Gives the final registry and the calls made.
   */
  function Walk(r: Listeners, c: int, t: TypeTag, throws: CallbackId -> bool,
                effects: CallbackId -> seq<Op>, i: nat, fuel: nat): (w: (Listeners, seq<Call>))
    requires c in r && t in r[c]
    ensures c in w.0 && t in w.0[c] && r.Keys <= w.0.Keys
    ensures i <= fuel ==> |w.1| <= fuel - i
    decreases fuel - i
  {
    if i >= fuel || i >= |r[c][t]| then (r, [])
    else
      var a := r[c][t][i].action;
      var rest := Walk(ApplyAll(r, effects(a)), c, t, throws, effects, i + 1, fuel);
      (rest.0, [Call(a, throws(a))] + rest.1)
  }

  /** One step of the walk: call the entry at i, apply its registry calls, walk on from i + 1. */
  lemma WalkStep(r: Listeners, c: int, t: TypeTag, throws: CallbackId -> bool,
                 effects: CallbackId -> seq<Op>, i: nat, fuel: nat)
    requires c in r && t in r[c] && i < fuel && i < |r[c][t]|
    ensures var a := r[c][t][i].action;
      var rest := Walk(ApplyAll(r, effects(a)), c, t, throws, effects, i + 1, fuel);
      Walk(r, c, t, throws, effects, i, fuel) == (rest.0, [Call(a, throws(a))] + rest.1)
  {
  }

  /**
    The walk from index 0 is the calls made so far followed by the walk from index i;
    one more step (call entry i, apply its registry calls) keeps that so at i + 1.
   */
  lemma WalkAdvance(start: Listeners, r: Listeners, c: int, t: TypeTag, throws: CallbackId -> bool,
                    effects: CallbackId -> seq<Op>, i: nat, fuel: nat, calls: seq<Call>)
    requires c in start && t in start[c] && c in r && t in r[c] && i < fuel && i < |r[c][t]|
    requires Walk(start, c, t, throws, effects, 0, fuel).0 == Walk(r, c, t, throws, effects, i, fuel).0
    requires Walk(start, c, t, throws, effects, 0, fuel).1 == calls + Walk(r, c, t, throws, effects, i, fuel).1
    ensures var a := r[c][t][i].action;
      var r' := ApplyAll(r, effects(a));
      && Walk(start, c, t, throws, effects, 0, fuel).0 == Walk(r', c, t, throws, effects, i + 1, fuel).0
      && Walk(start, c, t, throws, effects, 0, fuel).1 == (calls + [Call(a, throws(a))]) + Walk(r', c, t, throws, effects, i + 1, fuel).1
  {
    var a := r[c][t][i].action;
    var rest := Walk(ApplyAll(r, effects(a)), c, t, throws, effects, i + 1, fuel);
    WalkStep(r, c, t, throws, effects, i, fuel);
    assert calls + ([Call(a, throws(a))] + rest.1) == (calls + [Call(a, throws(a))]) + rest.1;
  }

  /** Invoke with registry-changing callbacks: its outcome and the registry it leaves behind. */
  function ReentrantDispatch(r: Listeners, c: int, t: TypeTag, throws: CallbackId -> bool,
                             effects: CallbackId -> seq<Op>, fuel: nat): (o: (Outcome, Listeners))
    ensures o.0.KeyNotFound? <==> c in r && t !in r[c]
    ensures c !in r ==> o == (Delivered([]), r)
    ensures o.0.KeyNotFound? ==> o.1 == r
    ensures o.0.Delivered? ==> |o.0.calls| <= fuel
    ensures r.Keys <= o.1.Keys
    ensures forall c' :: c' in r ==> r[c'].Keys <= o.1[c'].Keys
    ensures WellFormed(r) ==> WellFormed(o.1)
  {
    if c !in r then (Delivered([]), r)
    else if t !in r[c] then (KeyNotFound, r)
    else
      var w := Walk(r, c, t, throws, effects, 0, fuel);
      WalkKeepsTypeBuckets(r, c, t, throws, effects, 0, fuel);
      WalkKeepsWellFormed(r, c, t, throws, effects, 0, fuel);
      (Delivered(w.1), w.0)
  }

  /** The walk keeps every entry in the bucket of its own channel and type. */
  lemma {:induction false} WalkKeepsWellFormed(r: Listeners, c: int, t: TypeTag, throws: CallbackId -> bool,
                                               effects: CallbackId -> seq<Op>, i: nat, fuel: nat)
    requires c in r && t in r[c]
    ensures WellFormed(r) ==> WellFormed(Walk(r, c, t, throws, effects, i, fuel).0)
    decreases fuel - i
  {
    if i < fuel && i < |r[c][t]| {
      var r1 := ApplyAll(r, effects(r[c][t][i].action));
      WalkKeepsWellFormed(r1, c, t, throws, effects, i + 1, fuel);
      assert Walk(r, c, t, throws, effects, i, fuel).0 == Walk(r1, c, t, throws, effects, i + 1, fuel).0;
    }
  }

  /** The walk drops no type bucket of any channel. */
  lemma {:induction false} WalkKeepsTypeBuckets(r: Listeners, c: int, t: TypeTag, throws: CallbackId -> bool,
                                                effects: CallbackId -> seq<Op>, i: nat, fuel: nat)
    requires c in r && t in r[c]
    ensures forall c' :: c' in r ==> r[c'].Keys <= Walk(r, c, t, throws, effects, i, fuel).0[c'].Keys
    decreases fuel - i
  {
    if i < fuel && i < |r[c][t]| {
      var r1 := ApplyAll(r, effects(r[c][t][i].action));
      WalkKeepsTypeBuckets(r1, c, t, throws, effects, i + 1, fuel);
      assert Walk(r, c, t, throws, effects, i, fuel).0 == Walk(r1, c, t, throws, effects, i + 1, fuel).0;
    }
  }

  /**
    The bound only cuts the walk off: a walk that ends before reaching it gives the same
    calls and the same registry under every larger bound.
   */
  lemma {:induction false} FuelIsCutOff(r: Listeners, c: int, t: TypeTag, throws: CallbackId -> bool,
                                        effects: CallbackId -> seq<Op>, i: nat, fuel: nat, fuel': nat)
    requires c in r && t in r[c]
    requires i <= fuel <= fuel'
    requires |Walk(r, c, t, throws, effects, i, fuel).1| < fuel - i
    ensures Walk(r, c, t, throws, effects, i, fuel') == Walk(r, c, t, throws, effects, i, fuel)
    decreases fuel - i
  {
    if i < |r[c][t]| {
      FuelIsCutOff(ApplyAll(r, effects(r[c][t][i].action)), c, t, throws, effects, i + 1, fuel, fuel');
    }
  }

  /**
    An Invoke that makes fewer calls than the bound is the unbounded Invoke: every larger
    bound gives the same outcome and the same registry.
   */
  lemma DispatchFuelIsCutOff(r: Listeners, c: int, t: TypeTag, throws: CallbackId -> bool,
                             effects: CallbackId -> seq<Op>, fuel: nat, fuel': nat)
    requires fuel <= fuel'
    requires ReentrantDispatch(r, c, t, throws, effects, fuel).0.Delivered? ==>
             |ReentrantDispatch(r, c, t, throws, effects, fuel).0.calls| < fuel
    ensures ReentrantDispatch(r, c, t, throws, effects, fuel') == ReentrantDispatch(r, c, t, throws, effects, fuel)
  {
    if c in r && t in r[c] {
      FuelIsCutOff(r, c, t, throws, effects, 0, fuel, fuel');
    }
  }

  /** With callbacks that make no registry calls, the walk from i delivers the rest of the bucket. */
  lemma {:induction false} WalkWithoutEffects(r: Listeners, c: int, t: TypeTag, throws: CallbackId -> bool,
                                              effects: CallbackId -> seq<Op>, i: nat, fuel: nat)
    requires c in r && t in r[c]
    requires forall a :: effects(a) == []
    requires i <= |r[c][t]| <= fuel
    ensures Walk(r, c, t, throws, effects, i, fuel) == (r, Deliver(r[c][t][i..], throws))
    decreases |r[c][t]| - i
  {
    var b := r[c][t];
    if i < |b| {
      assert ApplyAll(r, effects(b[i].action)) == r;
      WalkWithoutEffects(r, c, t, throws, effects, i + 1, fuel);
      assert b[i..][1..] == b[i + 1..];
    } else {
      assert b[i..] == [];
    }
  }

  /**
    With callbacks that make no registry calls (and a bound no smaller than the bucket),
    the re-reading walk is Dispatch and leaves the registry as it was.
   */
  lemma QuietCallbacksAreDispatch(r: Listeners, c: int, t: TypeTag, throws: CallbackId -> bool,
                                  effects: CallbackId -> seq<Op>, fuel: nat)
    requires forall a :: effects(a) == []
    requires |Bucket(r, c, t)| <= fuel
    ensures ReentrantDispatch(r, c, t, throws, effects, fuel) == (Dispatch(r, c, t, throws), r)
  {
    if c in r && t in r[c] {
      WalkWithoutEffects(r, c, t, throws, effects, 0, fuel);
      assert r[c][t][0..] == r[c][t];
    }
  }

  /**
    A callback that removes itself makes the walk skip the next entry: with bucket [a, b]
    and `a` removing itself, only `a` is called, although `b` stays registered throughout.
   */
  lemma SelfRemovalSkipsNext(r: Listeners, c: int, t: TypeTag, a: CallbackId, b: CallbackId,
                             throws: CallbackId -> bool, effects: CallbackId -> seq<Op>, fuel: nat)
    requires c in r && t in r[c] && r[c][t] == [Entry(c, t, a), Entry(c, t, b)]
    requires effects(a) == [RemoveListener(t, a, c)]
    requires fuel >= 2
    ensures ReentrantDispatch(r, c, t, throws, effects, fuel).0 == Delivered([Call(a, throws(a))])
    ensures Bucket(ReentrantDispatch(r, c, t, throws, effects, fuel).1, c, t) == [Entry(c, t, b)]
  {
    var s := [Entry(c, t, a), Entry(c, t, b)];
    assert FindFirst(s, t, a) == Some(0);
    var r1: Listeners := ApplyAll(r, effects(a));
    ApplySingle(r, RemoveListener(t, a, c));
    assert r1[c][t] == s[..0] + s[1..] == [Entry(c, t, b)];
    assert Walk(r1, c, t, throws, effects, 1, fuel) == (r1, []);
  }

  /**
    An entry appended during the walk is called in the same Invoke: with bucket [a] and `a`
    adding `b`, Invoke calls `a` and then `b`.
   */
  lemma AddedDuringDispatchIsCalled(r: Listeners, c: int, t: TypeTag, a: CallbackId, b: CallbackId,
                                    throws: CallbackId -> bool, effects: CallbackId -> seq<Op>, fuel: nat)
    requires c in r && t in r[c] && r[c][t] == [Entry(c, t, a)]
    requires effects(a) == [AddListener(t, b, c)] && effects(b) == []
    requires fuel >= 2
    ensures ReentrantDispatch(r, c, t, throws, effects, fuel).0 ==
            Delivered([Call(a, throws(a)), Call(b, throws(b))])
  {
    var r1: Listeners := ApplyAll(r, effects(a));
    ApplySingle(r, AddListener(t, b, c));
    assert r1[c][t] == [Entry(c, t, a), Entry(c, t, b)];
    assert ApplyAll(r1, effects(b)) == r1;
    assert Walk(r1, c, t, throws, effects, 2, fuel) == (r1, []);
    assert r1[c][t][1].action == b && |r1[c][t]| == 2;
    assert Walk(r1, c, t, throws, effects, 1, fuel).1 == [Call(b, throws(b))] + [];
    assert Walk(r, c, t, throws, effects, 0, fuel).1 == [Call(a, throws(a))] + [Call(b, throws(b))];
  }

  /**
    A callback that adds itself again keeps the walk going: from index i with the
    bucket's last entry at i being `a`, the walk makes a call at every index up to the bound.
   */
  lemma {:induction false} SelfReAddRunsToBound(r: Listeners, c: int, t: TypeTag, a: CallbackId,
                                                throws: CallbackId -> bool, effects: CallbackId -> seq<Op>,
                                                i: nat, fuel: nat)
    requires c in r && t in r[c] && |r[c][t]| == i + 1 && r[c][t][i].action == a
    requires effects(a) == [AddListener(t, a, c)]
    requires i <= fuel
    ensures |Walk(r, c, t, throws, effects, i, fuel).1| == fuel - i
    decreases fuel - i
  {
    if i < fuel {
      var r1: Listeners := ApplyAll(r, effects(a));
      ApplySingle(r, AddListener(t, a, c));
      assert r1[c][t] == r[c][t] + [Entry(c, t, a)];
      SelfReAddRunsToBound(r1, c, t, a, throws, effects, i + 1, fuel);
    }
  }

  /**
    With a single callback that adds itself again, Invoke makes exactly as many calls as
    the bound allows, whatever the bound: without it, the walk goes on for as long as the
    bucket can grow.
   */
  lemma SelfReAddFillsAnyBound(r: Listeners, c: int, t: TypeTag, a: CallbackId,
                              throws: CallbackId -> bool, effects: CallbackId -> seq<Op>, fuel: nat)
    requires c in r && t in r[c] && r[c][t] == [Entry(c, t, a)]
    requires effects(a) == [AddListener(t, a, c)]
    ensures ReentrantDispatch(r, c, t, throws, effects, fuel).0.Delivered?
    ensures |ReentrantDispatch(r, c, t, throws, effects, fuel).0.calls| == fuel
  {
    SelfReAddRunsToBound(r, c, t, a, throws, effects, 0, fuel);
  }

  /**
    Removal during the walk shifts the bucket under the index: when the callback at index i
    removes an entry whose first match lies at or before i, the walk's next call is to the
    entry that stood at i + 2, and the one at i + 1 is skipped; when that was the last
    entry, the walk ends after the call at i.
   */
  lemma RemovalAtOrBeforeIndexSkipsNext(r: Listeners, c: int, t: TypeTag, throws: CallbackId -> bool,
                                        effects: CallbackId -> seq<Op>, i: nat, fuel: nat, cb: CallbackId, j: nat)
    requires c in r && t in r[c] && i + 1 < |r[c][t]| && i + 1 < fuel
    requires effects(r[c][t][i].action) == [RemoveListener(t, cb, c)]
    requires FindFirst(r[c][t], t, cb) == Some(j) && j <= i
    ensures var w := Walk(r, c, t, throws, effects, i, fuel);
      && |w.1| >= 1 && w.1[0] == Call(r[c][t][i].action, throws(r[c][t][i].action))
      && (i + 2 < |r[c][t]| ==>
            |w.1| >= 2 && w.1[1] == Call(r[c][t][i + 2].action, throws(r[c][t][i + 2].action)))
      && (i + 2 == |r[c][t]| ==> |w.1| == 1)
  {
    var s, a := r[c][t], r[c][t][i].action;
    var r1: Listeners := ApplyAll(r, effects(a));
    ApplySingle(r, RemoveListener(t, cb, c));
    assert r1[c][t] == s[..j] + s[j + 1..];
    var rest := Walk(r1, c, t, throws, effects, i + 1, fuel);
    assert Walk(r, c, t, throws, effects, i, fuel) == (rest.0, [Call(a, throws(a))] + rest.1);
    if i + 2 < |s| {
      assert r1[c][t][i + 1] == s[i + 2];
      var b := s[i + 2].action;
      var rest2 := Walk(ApplyAll(r1, effects(b)), c, t, throws, effects, i + 2, fuel);
      assert rest == (rest2.0, [Call(b, throws(b))] + rest2.1);
    } else {
      assert rest == (r1, []);
    }
  }

  /** The callback makes only AddListener calls. */
  predicate AddsOnly(ops: seq<Op>)
  {
    forall k :: 0 <= k < |ops| ==> ops[k].AddListener?
  }

  /** AddListener calls only ever extend a bucket: what it held stays at its front. */
  lemma {:induction false} AddsOnlyExtends(r: Listeners, ops: seq<Op>, c: int, t: TypeTag)
    requires AddsOnly(ops)
    ensures Bucket(r, c, t) <= Bucket(ApplyAll(r, ops), c, t)
    decreases |ops|
  {
    if ops != [] {
      var init := ops[..|ops| - 1];
      assert AddsOnly(init) by {
        forall k | 0 <= k < |init| ensures init[k].AddListener? { assert init[k] == ops[k]; }
      }
      AddsOnlyExtends(r, init, c, t);
      var op := ops[|ops| - 1];
      var mid := ApplyAll(r, init);
      if op.channel != c || op.eventType != t {
        OtherBucketsUnchanged(mid, op.channel, op.eventType, op.action, c, t);
      }
    }
  }

  /** `calls` are the calls to the entries of bucket `b` from index i on, in bucket order. */
  predicate CallsInOrder(calls: seq<Call>, b: seq<Entry>, i: nat, throws: CallbackId -> bool)
  {
    && i + |calls| <= |b|
    && forall k :: 0 <= k < |calls| ==> calls[k] == Call(b[i + k].action, throws(b[i + k].action))
  }

  /** A call to entry i in front of the calls from i + 1 on gives the calls from i on. */
  lemma CallsInOrderCons(calls: seq<Call>, b: seq<Entry>, i: nat, throws: CallbackId -> bool)
    requires i < |b| && CallsInOrder(calls, b, i + 1, throws)
    ensures CallsInOrder([Call(b[i].action, throws(b[i].action))] + calls, b, i, throws)
  {
    var all := [Call(b[i].action, throws(b[i].action))] + calls;
    forall k | 0 <= k < |all| ensures all[k] == Call(b[i + k].action, throws(b[i + k].action))
    {
      if k > 0 {
        assert all[k] == calls[k - 1];
      }
    }
  }

  /**
    When callbacks only add listeners, every entry the bucket holds when the walk ends, from
    index i on, is called in bucket order, including the entries added during the walk,
    unless the bound stops the walk first.
   */
  lemma {:induction false} AddsOnlyWalkCallsEveryEntry(r: Listeners, c: int, t: TypeTag, throws: CallbackId -> bool,
                                                      effects: CallbackId -> seq<Op>, i: nat, fuel: nat)
    requires c in r && t in r[c]
    requires forall a :: AddsOnly(effects(a))
    requires i <= |r[c][t]| && i <= fuel
    ensures var w := Walk(r, c, t, throws, effects, i, fuel);
      && r[c][t] <= w.0[c][t]
      && CallsInOrder(w.1, w.0[c][t], i, throws)
      && (i + |w.1| == fuel || i + |w.1| == |w.0[c][t]|)
    decreases fuel - i
  {
    if i < fuel && i < |r[c][t]| {
      var a := r[c][t][i].action;
      var r1 := ApplyAll(r, effects(a));
      AddsOnlyExtends(r, effects(a), c, t);
      AddsOnlyWalkCallsEveryEntry(r1, c, t, throws, effects, i + 1, fuel);
      var rest := Walk(r1, c, t, throws, effects, i + 1, fuel);
      assert Walk(r, c, t, throws, effects, i, fuel) == (rest.0, [Call(a, throws(a))] + rest.1);
      var b := rest.0[c][t];
      assert r[c][t] <= r1[c][t] <= b;
      assert b[i] == r[c][t][i];
      CallsInOrderCons(rest.1, b, i, throws);
    } else {
      assert Walk(r, c, t, throws, effects, i, fuel) == (r, []);
    }
  }

  /**
    A removal can hide an entry added during the same walk: with bucket [a, b], `a` adding
    `x` and `b` removing `a`, Invoke calls `a` and `b` only, and the bucket ends as [b, x],
    with `x` shifted behind the index.
   */
  lemma RemovalCanHideAddedEntry(r: Listeners, c: int, t: TypeTag, a: CallbackId, b: CallbackId, x: CallbackId,
                                 throws: CallbackId -> bool, effects: CallbackId -> seq<Op>, fuel: nat)
    requires c in r && t in r[c] && r[c][t] == [Entry(c, t, a), Entry(c, t, b)]
    requires a != b
    requires effects(a) == [AddListener(t, x, c)] && effects(b) == [RemoveListener(t, a, c)]
    requires fuel >= 3
    ensures ReentrantDispatch(r, c, t, throws, effects, fuel).0 ==
            Delivered([Call(a, throws(a)), Call(b, throws(b))])
    ensures Bucket(ReentrantDispatch(r, c, t, throws, effects, fuel).1, c, t) == [Entry(c, t, b), Entry(c, t, x)]
  {
    var ea, eb, ex := Entry(c, t, a), Entry(c, t, b), Entry(c, t, x);
    var r1: Listeners := ApplyAll(r, effects(a));
    ApplySingle(r, AddListener(t, x, c));
    assert r1[c][t] == [ea, eb, ex];
    assert r[c][t][0].action == a;
    var r2: Listeners := ApplyAll(r1, effects(b));
    ApplySingle(r1, RemoveListener(t, a, c));
    assert FindFirst([ea, eb, ex], t, a) == Some(0);
    assert r2[c][t] == [ea, eb, ex][..0] + [ea, eb, ex][1..] == [eb, ex];
    assert Walk(r2, c, t, throws, effects, 2, fuel) == (r2, []);
    assert r1[c][t][1].action == b;
    assert Walk(r1, c, t, throws, effects, 1, fuel) == (r2, [Call(b, throws(b))] + []);
    assert Walk(r, c, t, throws, effects, 0, fuel) == (r2, [Call(a, throws(a))] + ([Call(b, throws(b))] + []));
    assert [Call(a, throws(a))] + ([Call(b, throws(b))] + []) == [Call(a, throws(a)), Call(b, throws(b))];
  }
}
