# EventBus listener registry and dispatcher, in Dafny

This project models the core of the `EventBus` of the ETdoFresh Unity EventBus package
(`Runtime/EventBus.cs`): a process-wide registry of listeners and the dispatcher that calls them.

- The registry maps a channel (an `int`) to a map from event type to an ordered list of
  listener entries. In the source it is the static field `listenersDictionary`; here it is
  the `listenersDictionary` field of one `EventBus` object.
- `AddListener<T>(action, channel)` creates the channel map and the type bucket when they are
  missing. Then it appends a new entry unconditionally, so duplicates are allowed.
- `RemoveListener<T>(action, channel)` does nothing when the channel, the type bucket or a
  matching entry is missing. Otherwise it removes the first entry whose action equals `action`.
- `Invoke<T>(message, channel)` returns at once when the channel is absent. Otherwise it
  indexes `[channel][typeof(T)]`, which throws `KeyNotFoundException` when that type has no
  bucket on the channel. It then walks the bucket by index and calls each callback. An
  exception from a callback is caught and logged, and the walk continues.

The dispatch key is the static type argument `T`, modelled as a `TypeTag`. A callback is a
`CallbackId`; delegate `==` is equality of ids. An entry is `Entry(channel, eventType, action)`,
after `Runtime/EventBusEntry.cs`.

Modules:

- `Entries` (`entries.dfy`): the entry datatype and the tags.
- `Registry` (`registry.dfy`): the two-level map as a value. `Added` and `Removed` are the
  updates, and the lemmas state what they do to each bucket.
- `Dispatcher` (`dispatcher.dfy`): what `Invoke` delivers when callbacks leave the registry
  alone: order, isolation, channel partition, removal and duplicates.
- `Reentrant` (`reentrant.dfy`): `Invoke` when callbacks call `AddListener` or
  `RemoveListener` while the walk runs.
- `EventBusSystem` (`event_bus.dfy`): the class `EventBus`. Its methods update `listenersDictionary` in
  place, and each one is proved equal to the matching function above.

Exceptions thrown by callbacks come from an oracle `throws: CallbackId -> bool`. Each call is
recorded as `Call(action, logged)`, where `logged` means the exception went to the log. An
`Invoke` ends in `Delivered(calls)` or in `KeyNotFound`.

Where a plain reading of the EventBus's intended contract and the code differ, the model
follows the code:

- When the channel exists but has no bucket for the type, `Invoke` does not quietly do
  nothing. The lookup at line 66 throws, and the exception reaches the caller (`KeyNotFound`).
- The loop bound `entries.Count` is read again on every step, and `AddListener` appends to the
  very list being walked. When callbacks only add listeners, every entry added during an
  `Invoke` is called in that same `Invoke` (`Reentrant.AddsOnlyWalkCallsEveryEntry`; for
  example `Reentrant.AddedDuringDispatchIsCalled`). Once removals are mixed in this no longer
  holds: with bucket [a, b], `a` adding `x` and `b` removing `a`, the bucket ends as [b, x]
  and `x` is never called (`Reentrant.RemovalCanHideAddedEntry`).
- When the callback at index i removes an entry whose first match is at or before i, the list
  shifts under the index and the entry that stood at i + 1 is skipped
  (`Reentrant.RemovalAtOrBeforeIndexSkipsNext`; for example `Reentrant.SelfRemovalSkipsNext`).
- A callback that registers itself again on every call keeps the walk going until `List.Add`
  fails for lack of capacity or memory; that exception is caught at line 76 like any other
  (`Reentrant.SelfReAddFillsAnyBound`).
- Removal matches with delegate `==`, which compares delegates by value, not by reference.

## Model

| member | source | states |
|---|---|---|
| `Registry.FindFirst` | Runtime/EventBus.cs:51-53 | with `Matches` as the line-52 test (type `t` and action `cb`), the entry `List.Find` picks is the first one of type `t` whose action is `cb`; None exactly when no entry matches |
| `Registry.Added` | Runtime/EventBus.cs:30-36 | after AddListener, bucket (c, t) is its old contents (empty when absent) followed by one new entry for `cb`; channel c and type t now exist; other channels and the other buckets of c are unchanged |
| `Registry.Removed` | Runtime/EventBus.cs:48-55 | RemoveListener changes nothing when no entry matches (also for a missing channel or bucket); otherwise bucket (c, t) loses exactly its first matching entry, the rest keep their order; no key is dropped and no other bucket changes |
| `Registry.OtherBucketsUnchanged` | Runtime/EventBus.cs:30-55 | AddListener and RemoveListener on (c, t) leave every other bucket as it was |
| `Registry.AddKeepsWellFormed` | Runtime/EventBus.cs:21-36 | AddListener keeps every entry in the bucket of its own channel and type |
| `Registry.RemoveKeepsWellFormed` | Runtime/EventBus.cs:51-55 | RemoveListener keeps every entry in the bucket of its own channel and type |
| `Registry.FindFirstInBucket` | Runtime/EventBus.cs:51-52 | in a well-formed registry, Find finds nothing exactly when the bucket holds no `Entry(c, t, cb)`, and what it finds is that entry |
| `Registry.RemoveNoOpIffAbsent` | Runtime/EventBus.cs:48-53 | RemoveListener leaves the whole registry unchanged if and only if bucket (c, t) holds no entry for `cb` |
| `Registry.RemoveTakesOneOccurrence` | Runtime/EventBus.cs:51-55 | when the bucket holds `cb`, RemoveListener removes exactly one occurrence (the multiset loses one copy, the length drops by one) |
| `Registry.AddTwiceKeepsBoth` | Runtime/EventBus.cs:36 | adding the same callback twice leaves two entries for it at the end of the bucket |
| `Registry.AddRemoveRoundTrip` | Runtime/EventBus.cs:30-55 | AddListener then RemoveListener of a callback not in the bucket gives the bucket back; a created channel map and bucket stay, empty; if both existed the registry is exactly as before |
| `Registry.RemoveOnceLeavesDuplicate` | Runtime/EventBus.cs:30-55 | after two registrations of a new callback, one RemoveListener leaves the bucket with exactly one entry for it |
| `Dispatcher.Deliver` | Runtime/EventBus.cs:67-80 | walking a bucket calls each entry's callback once, in bucket order, and logs exactly the calls that throw |
| `Dispatcher.Dispatch` | Runtime/EventBus.cs:61-81 | Invoke fails the lookup exactly when the channel exists without a bucket for `t`; otherwise it makes one call per entry of bucket (c, t), in order, each logged exactly when its callback throws (no calls for an absent channel) |
| `Dispatcher.DispatchOrder` | Runtime/EventBus.cs:61-81 | Invoke calls exactly the bucket's callbacks in registration order when the bucket exists, none when the channel is absent, and fails the lookup when only the type bucket is absent |
| `Dispatcher.Isolation` | Runtime/EventBus.cs:67-80 | which callbacks Invoke calls, and whether it fails, does not depend on which callbacks throw; a call is logged exactly when its callback throws |
| `Dispatcher.ChannelPartition` | Runtime/EventBus.cs:64-66 | registering on one channel does not change what Invoke does on any other channel |
| `Dispatcher.EmptyBucketCallsNothing` | Runtime/EventBus.cs:64-67 | Invoke on an absent channel or an empty bucket calls nothing and does not fail |
| `Dispatcher.RemovedIsNotCalled` | Runtime/EventBus.cs:45-81 | after removing a callback registered at most once, Invoke on that bucket never calls it |
| `Dispatcher.DuplicateCalledTwice` | Runtime/EventBus.cs:36-80 | a callback added twice is called twice per Invoke, after the callbacks already registered |
| `Dispatcher.RemoveOnceStillCalledOnce` | Runtime/EventBus.cs:45-80 | after two registrations and one removal the callback is still called, once |
| `Dispatcher.RegisterPublishRemoveScenario` | Runtime/EventBus.cs:13-81 | registering cb1, cb2, cb3 on an empty bucket makes Invoke call cb1, cb2, cb3; after removing cb2 it calls cb1, cb3 |
| `Reentrant.Apply` | Runtime/EventBus.cs:30-55 | one AddListener call appends its entry to bucket (c, t); one RemoveListener call changes nothing or shortens that bucket by one; neither drops a channel or a type bucket, and both keep the entry invariant |
| `Reentrant.ApplyAll` | Runtime/EventBus.cs:30-55 | registry calls made by a callback never drop a channel or a type bucket and keep the entry invariant |
| `Reentrant.Walk` | Runtime/EventBus.cs:66-80 | the walk that re-reads the bucket keeps the bucket present and makes at most one call per index up to the bound |
| `Reentrant.WalkWithoutEffects` | Runtime/EventBus.cs:66-80 | when callbacks make no registry calls, the walk from index i calls the rest of the bucket in order and leaves the registry unchanged |
| `Reentrant.ReentrantDispatch` | Runtime/EventBus.cs:61-81 | the re-reading Invoke fails the lookup exactly when the channel exists without a bucket for `t`, and then leaves the registry as it was; an absent channel gives no calls and no change; no channel and no type bucket of any channel is dropped, the entry invariant is kept, and at most `fuel` calls are made |
| `Reentrant.WalkKeepsTypeBuckets` | Runtime/EventBus.cs:30-80 | registry calls made during the walk drop no type bucket of any channel |
| `Reentrant.WalkKeepsWellFormed` | Runtime/EventBus.cs:30-80 | registry calls made during the walk keep every entry in the bucket of its own channel and type |
| `Reentrant.FuelIsCutOff` | Runtime/EventBus.cs:67-80 | a walk that stops before the bound gives the same calls and registry under every larger bound: the bound only cuts the walk off |
| `Reentrant.DispatchFuelIsCutOff` | Runtime/EventBus.cs:61-81 | an Invoke that makes fewer calls than the bound (or fails the lookup, or finds no channel) has the outcome and final registry of every larger bound, so it is the source's own outcome |
| `Reentrant.QuietCallbacksAreDispatch` | Runtime/EventBus.cs:61-81 | with callbacks that make no registry calls, the re-reading Invoke is exactly the plain dispatch and leaves the registry as it was |
| `Reentrant.SelfRemovalSkipsNext` | Runtime/EventBus.cs:55-80 | example: with bucket [a, b] and `a` removing itself, Invoke calls only `a`: `b`, registered throughout, is skipped |
| `Reentrant.RemovalAtOrBeforeIndexSkipsNext` | Runtime/EventBus.cs:51-80 | for any bucket, when the callback at index i removes an entry first found at or before i, the next call is to the entry that stood at i + 2 (none when the bucket had i + 2 entries): the entry at i + 1 is skipped |
| `Reentrant.AddsOnlyExtends` | Runtime/EventBus.cs:30-36 | AddListener calls only extend a bucket: its old contents stay at its front |
| `Reentrant.AddsOnlyWalkCallsEveryEntry` | Runtime/EventBus.cs:30-80 | when callbacks only add listeners, the walk from index i calls, in order, every entry the final bucket holds from i on (including entries added during the walk) until the bucket's end or the bound; the original bucket stays a prefix of the final one |
| `Reentrant.RemovalCanHideAddedEntry` | Runtime/EventBus.cs:30-80 | with bucket [a, b], `a` adding `x` and `b` removing `a`, Invoke calls exactly `a` then `b` and leaves the bucket as [b, x]: an entry added during the walk is not called |
| `Reentrant.AddedDuringDispatchIsCalled` | Runtime/EventBus.cs:67-80 | example: with bucket [a] and `a` adding `b`, Invoke calls `a` and then `b` in the same walk |
| `Reentrant.SelfReAddRunsToBound` | Runtime/EventBus.cs:67-80 | when the callback at the end of the bucket registers itself again, the walk makes a call at every index up to the bound |
| `Reentrant.SelfReAddFillsAnyBound` | Runtime/EventBus.cs:30-80 | a single self-re-adding callback makes Invoke call it as many times as any bound allows: the loop of the source stops only when the bucket can no longer grow |
| `EventBusSystem.EventBus.constructor` | Runtime/EventBus.cs:11 | the dictionary starts empty and well formed |
| `EventBusSystem.EventBus.AddListener` | Runtime/EventBus.cs:13-43 | the new registry is `Added` of the old one: the bucket gains the new entry at its end; the entry invariant is kept |
| `EventBusSystem.EventBus.RemoveListener` | Runtime/EventBus.cs:45-59 | the new registry is `Removed` of the old one, unchanged when the callback is not in the bucket; the entry invariant is kept |
| `EventBusSystem.EventBus.Invoke` | Runtime/EventBus.cs:61-81 | the index loop returns the outcome of `Dispatch`: nothing for an absent channel, the lookup failure for an absent bucket, else each entry's callback in order |
| `EventBusSystem.EventBus.InvokeReentrant` | Runtime/EventBus.cs:61-81 | with callbacks that change the registry, the outcome and the final registry are those of `ReentrantDispatch` |
| `EventBusSystem.EventBus.WalkBucket` | Runtime/EventBus.cs:66-80 | the loop that re-reads the bucket's length before each step yields the calls and final registry of `Walk` |

## Left out

- The editor-only mirror list `listeners`, its ordinal sort by name, and the MonoScript lookup (`Runtime/EventBus.cs` lines 10, 38-42, 56-58, 93-104). They are editor support and do not take part in dispatch.
- The diagnostic name and the host object of an entry, and `GetGameObject` (lines 16-20, 83-91). They rely on reflection and engine object naming and only serve display.
- A null delegate. `AddListener(null)` throws at line 16, where `GetGameObject` reads `action.Target` (line 85), before the registry changes; `RemoveListener(null)` matches no entry and does nothing. `CallbackId` has no null value.
- `Debug.LogException` (line 78) is a host side effect. The model records it only as the `logged` flag of a call.
- The message payload. Every callback receives the same message unchanged, so the model records only which callbacks are called.
- `Runtime/MonoBehaviourLazyLoadedSingleton.cs`. Its behaviour is made of engine calls (`FindObjectOfType`, `AddComponent`, `Destroy`, `DontDestroyOnLoad`, `OnApplicationQuit`) and of the engine's overloaded truthiness for destroyed objects. It is not part of this model.
- `EventBusSystem.EventBus.Invoke` assumes callbacks that do not call `AddListener` or `RemoveListener`. `EventBusSystem.EventBus.InvokeReentrant` covers callbacks that do.
- `EventBusSystem.EventBus.InvokeReentrant` stops the walk at index `fuel`. The source has no such bound: its loop stops when the index reaches the bucket's length, and `Reentrant.SelfReAddFillsAnyBound` shows a bucket that keeps growing until `List.Add` fails. An outcome with fewer calls than `fuel` is the unbounded one (`Reentrant.DispatchFuelIsCutOff`); one with exactly `fuel` calls may be cut short.
- Buckets are unbounded sequences. The capacity and memory limits of `List<T>`, and the exception `List.Add` throws when it reaches them, are not modelled.
- `Reentrant.Walk`: the registry calls a callback makes are a fixed function of the callback (`effects`), the same on every call and independent of the registry's state and of the message. A callback's registry calls all take effect before it throws. A callback that throws halfway through its registry calls, or that calls `Invoke` itself, is not modelled.
- `Dispatcher.Deliver`: whether a callback throws is a fixed function of the callback. A callback that throws on some calls and not on others is not modelled.
- The default `channel = 0` of `AddListener`, `RemoveListener` and `Invoke` (lines 13, 45, 61). The model's operations always take the channel explicitly; a call without one is the call with channel 0.
- Threads: the source has none; every call runs on the caller's thread.
