/**
  The listener registry: a two-level map channel -> event type -> ordered list of entries,
  and the two updates AddListener and RemoveListener make to it, as values.
 */
module Registry {
  import opened Entries

  /** The shape of `listenersDictionary`. */
  type Listeners = map<int, map<TypeTag, seq<Entry>>>

  /** The bucket for (c, t), or the empty list where the registry has none. */
  function Bucket(r: Listeners, c: int, t: TypeTag): seq<Entry>
  {
    if c in r && t in r[c] then r[c][t] else []
  }

  /** Every entry sits in the bucket of its own channel and event type. */
  ghost predicate WellFormed(r: Listeners)
  {
    forall c, t, i :: c in r && t in r[c] && 0 <= i < |r[c][t]| ==>
      r[c][t][i].channel == c && r[c][t][i].eventType == t
  }

  /** The predicate RemoveListener hands to `List.Find`: an entry of type `t` whose action equals `cb`. */
  predicate Matches(e: Entry, t: TypeTag, cb: CallbackId)
  {
    e.eventType == t && e.action == cb
  }

  /** The position of the entry `List.Find` returns: the first match, or None when nothing matches. */
  function FindFirst(s: seq<Entry>, t: TypeTag, cb: CallbackId): (k: Option<nat>)
    ensures k.None? <==> forall j :: 0 <= j < |s| ==> !Matches(s[j], t, cb)
    ensures k.Some? ==> k.value < |s| && Matches(s[k.value], t, cb)
    ensures k.Some? ==> forall j :: 0 <= j < k.value ==> !Matches(s[j], t, cb)
  {
    if s == [] then None
    else if Matches(s[0], t, cb) then Some(0)
    else match FindFirst(s[1..], t, cb)
      case None => None
      case Some(k) => Some(k + 1)
  }

  /**
    The registry after AddListener: the channel map and the type bucket are created when
    missing, and a new entry is appended unconditionally.
   */
  function Added(r: Listeners, c: int, t: TypeTag, cb: CallbackId): (r': Listeners)
    ensures r'.Keys == r.Keys + {c}
    ensures r'[c].Keys == (if c in r then r[c].Keys else {}) + {t}
    ensures Bucket(r', c, t) == Bucket(r, c, t) + [Entry(c, t, cb)]
    ensures forall c' :: c' in r && c' != c ==> r'[c'] == r[c']
    ensures forall t' :: c in r && t' in r[c] && t' != t ==> r'[c][t'] == r[c][t']
  {
    var channelMap := if c in r then r[c] else map[];
    var bucket := if t in channelMap then channelMap[t] else [];
    r[c := channelMap[t := bucket + [Entry(c, t, cb)]]]
  }

  /**
    The registry after RemoveListener: nothing changes when the channel, the type bucket or
    a matching entry is missing; otherwise the first matching entry is cut out of its bucket.
   */
  function Removed(r: Listeners, c: int, t: TypeTag, cb: CallbackId): (r': Listeners)
    ensures r'.Keys == r.Keys
    ensures forall c' :: c' in r ==> r'[c'].Keys == r[c'].Keys
    ensures forall c' :: c' in r && c' != c ==> r'[c'] == r[c']
    ensures forall t' :: c in r && t' in r[c] && t' != t ==> r'[c][t'] == r[c][t']
    ensures FindFirst(Bucket(r, c, t), t, cb).None? ==> r' == r
    ensures FindFirst(Bucket(r, c, t), t, cb).Some? ==>
      var k := FindFirst(Bucket(r, c, t), t, cb).value;
      Bucket(r', c, t) == Bucket(r, c, t)[..k] + Bucket(r, c, t)[k + 1..]
  {
    if c !in r then r
    else if t !in r[c] then r
    else match FindFirst(r[c][t], t, cb)
      case None => r
      case Some(k) => r[c := r[c][t := r[c][t][..k] + r[c][t][k + 1..]]]
  }

  /** Buckets other than (c, t) are the same before and after either update. */
  lemma OtherBucketsUnchanged(r: Listeners, c: int, t: TypeTag, cb: CallbackId, c': int, t': TypeTag)
    requires c' != c || t' != t
    ensures Bucket(Added(r, c, t, cb), c', t') == Bucket(r, c', t')
    ensures Bucket(Removed(r, c, t, cb), c', t') == Bucket(r, c', t')
  {
  }

  /** AddListener keeps every entry in the bucket of its own channel and type. */
  lemma AddKeepsWellFormed(r: Listeners, c: int, t: TypeTag, cb: CallbackId)
    ensures WellFormed(r) ==> WellFormed(Added(r, c, t, cb))
  {
    if WellFormed(r) {
      var r': Listeners := Added(r, c, t, cb);
      forall c': int, t': TypeTag, i: int | c' in r' && t' in r'[c'] && 0 <= i < |r'[c'][t']|
        ensures r'[c'][t'][i].channel == c' && r'[c'][t'][i].eventType == t'
      {
        if c' == c && t' == t {
          assert r'[c'][t'] == Bucket(r, c, t) + [Entry(c, t, cb)];
        }
      }
    }
  }

  /** RemoveListener keeps every entry in the bucket of its own channel and type. */
  lemma RemoveKeepsWellFormed(r: Listeners, c: int, t: TypeTag, cb: CallbackId)
    ensures WellFormed(r) ==> WellFormed(Removed(r, c, t, cb))
  {
    var r': Listeners := Removed(r, c, t, cb);
    var found := FindFirst(Bucket(r, c, t), t, cb);
    if WellFormed(r) && found.Some? {
      var s, k := Bucket(r, c, t), found.value;
      forall c': int, t': TypeTag, i: int | c' in r' && t' in r'[c'] && 0 <= i < |r'[c'][t']|
        ensures r'[c'][t'][i].channel == c' && r'[c'][t'][i].eventType == t'
      {
        if c' == c && t' == t {
          assert r'[c'][t'] == s[..k] + s[k + 1..];
          if i < k {
            assert r'[c'][t'][i] == s[i];
          } else {
            assert r'[c'][t'][i] == s[i + 1];
          }
        }
      }
    }
  }

  /** In a well-formed registry, an entry of bucket (c, t) matches `cb` exactly when it is Entry(c, t, cb). */
  lemma FindFirstInBucket(r: Listeners, c: int, t: TypeTag, cb: CallbackId)
    requires WellFormed(r)
    ensures FindFirst(Bucket(r, c, t), t, cb).None? <==> Entry(c, t, cb) !in Bucket(r, c, t)
    ensures FindFirst(Bucket(r, c, t), t, cb).Some? ==>
      Bucket(r, c, t)[FindFirst(Bucket(r, c, t), t, cb).value] == Entry(c, t, cb)
  {
    var s := Bucket(r, c, t);
    if Entry(c, t, cb) in s {
      var j :| 0 <= j < |s| && s[j] == Entry(c, t, cb);
      assert Matches(s[j], t, cb);
    }
  }

  /**
    RemoveListener is a no-op exactly when bucket (c, t) holds no entry for `cb`
    (which includes a missing channel or a missing type bucket).
   */
  lemma RemoveNoOpIffAbsent(r: Listeners, c: int, t: TypeTag, cb: CallbackId)
    requires WellFormed(r)
    ensures Removed(r, c, t, cb) == r <==> Entry(c, t, cb) !in Bucket(r, c, t)
  {
    FindFirstInBucket(r, c, t, cb);
    if Entry(c, t, cb) in Bucket(r, c, t) {
      assert |Bucket(Removed(r, c, t, cb), c, t)| == |Bucket(r, c, t)| - 1;
    }
  }

  /**
    When bucket (c, t) holds an entry for `cb`, RemoveListener takes out exactly one
    occurrence of it, and the rest of the bucket keeps its relative order.
   */
  lemma RemoveTakesOneOccurrence(r: Listeners, c: int, t: TypeTag, cb: CallbackId)
    requires WellFormed(r)
    requires Entry(c, t, cb) in Bucket(r, c, t)
    ensures multiset(Bucket(Removed(r, c, t, cb), c, t)) ==
            multiset(Bucket(r, c, t)) - multiset{Entry(c, t, cb)}
    ensures |Bucket(Removed(r, c, t, cb), c, t)| == |Bucket(r, c, t)| - 1
  {
    FindFirstInBucket(r, c, t, cb);
    var s, k := Bucket(r, c, t), FindFirst(Bucket(r, c, t), t, cb).value;
    assert s == s[..k] + [s[k]] + s[k + 1..];
    assert multiset(s) == multiset(s[..k]) + multiset{s[k]} + multiset(s[k + 1..]);
  }

  /** Adding one callback twice leaves two entries for it: duplicates are not rejected. */
  lemma AddTwiceKeepsBoth(r: Listeners, c: int, t: TypeTag, cb: CallbackId)
    ensures Bucket(Added(Added(r, c, t, cb), c, t, cb), c, t) ==
            Bucket(r, c, t) + [Entry(c, t, cb), Entry(c, t, cb)]
    ensures multiset(Bucket(Added(Added(r, c, t, cb), c, t, cb), c, t))[Entry(c, t, cb)] ==
            multiset(Bucket(r, c, t))[Entry(c, t, cb)] + 2
  {
    var s := Bucket(r, c, t);
    assert s + [Entry(c, t, cb)] + [Entry(c, t, cb)] == s + [Entry(c, t, cb), Entry(c, t, cb)];
  }

  /** The first match in `s + [e]`, when `s` has none, is the appended entry. */
  lemma FindFirstAfterAppend(s: seq<Entry>, e: Entry, t: TypeTag, cb: CallbackId)
    requires forall j :: 0 <= j < |s| ==> !Matches(s[j], t, cb)
    requires Matches(e, t, cb)
    ensures FindFirst(s + [e], t, cb) == Some(|s|)
  {
    var k := FindFirst(s + [e], t, cb);
    assert Matches((s + [e])[|s|], t, cb);
    assert k.Some?;
  }

  /**
    AddListener followed by RemoveListener of a callback the bucket did not hold gives the
    bucket back as it was. A channel map or type bucket created by the add stays, empty.
   */
  lemma AddRemoveRoundTrip(r: Listeners, c: int, t: TypeTag, cb: CallbackId)
    requires WellFormed(r)
    requires Entry(c, t, cb) !in Bucket(r, c, t)
    ensures Bucket(Removed(Added(r, c, t, cb), c, t, cb), c, t) == Bucket(r, c, t)
    ensures c in Removed(Added(r, c, t, cb), c, t, cb)
    ensures t in Removed(Added(r, c, t, cb), c, t, cb)[c]
    ensures c in r && t in r[c] ==> Removed(Added(r, c, t, cb), c, t, cb) == r
  {
    FindFirstInBucket(r, c, t, cb);
    var s := Bucket(r, c, t);
    FindFirstAfterAppend(s, Entry(c, t, cb), t, cb);
    assert (s + [Entry(c, t, cb)])[..|s|] == s;
    var r2 := Removed(Added(r, c, t, cb), c, t, cb);
    if c in r && t in r[c] {
      assert r2[c][t] == r[c][t];
      assert r2[c] == r[c];
    }
  }

  /**
    Of two registrations of one callback, a single RemoveListener takes out the first and
    leaves the second in place.
   */
  lemma RemoveOnceLeavesDuplicate(r: Listeners, c: int, t: TypeTag, cb: CallbackId)
    requires WellFormed(r)
    requires Entry(c, t, cb) !in Bucket(r, c, t)
    ensures Bucket(Removed(Added(Added(r, c, t, cb), c, t, cb), c, t, cb), c, t) ==
            Bucket(r, c, t) + [Entry(c, t, cb)]
  {
    FindFirstInBucket(r, c, t, cb);
    var s, e := Bucket(r, c, t), Entry(c, t, cb);
    AddTwiceKeepsBoth(r, c, t, cb);
    FindFirstAfterAppend(s, e, t, cb);
    assert (s + [e, e])[..|s|] == s;
    assert (s + [e, e])[..|s| + 1] == s + [e];
    FindFirstPrefix(s + [e, e], s + [e], t, cb);
    assert (s + [e, e])[|s| + 1..] == [e];
  }

  /** FindFirst only looks as far as the first match: a longer sequence with the same prefix finds the same one. */
  lemma {:induction false} FindFirstPrefix(long: seq<Entry>, short: seq<Entry>, t: TypeTag, cb: CallbackId)
    requires short <= long
    requires FindFirst(short, t, cb).Some?
    ensures FindFirst(long, t, cb) == FindFirst(short, t, cb)
  {
    var k := FindFirst(short, t, cb).value;
    assert long[k] == short[k];
    var k' := FindFirst(long, t, cb);
    assert k'.Some?;
  }
}
