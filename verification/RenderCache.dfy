/** The render memo: true LRU by a use clock, in front of the direct builder call. */
module RenderCache {
  import opened Basics
  import opened Markdown
  import opened Rendering

  datatype Slot<V> = Slot(value: V, lastUsed: nat)

  datatype Cache<V> = Cache(entries: map<string, Slot<V>>, clock: nat)

  /** The clock is a `UInt64` advanced with wrapping addition. */
  const CLOCK_RANGE := 0x1_0000_0000_0000_0000

  function Tick(clock: nat): nat {
    (clock + 1) % CLOCK_RANGE
  }

  /** `evictIfNeeded`: as many of the least recently stamped entries go as the capacity demands. */
  ghost predicate Trimmed<V(!new)>(full: map<string, Slot<V>>, capacity: nat, kept: map<string, Slot<V>>) {
    && kept.Keys <= full.Keys && (forall k :: k in kept ==> kept[k] == full[k])
    && |kept| == Min(|full|, capacity)
    && forall k, j :: k in kept && j in full && j !in kept ==> full[j].lastUsed <= full[k].lastUsed
  }

  /** One call of `rendered(key:build:)`. */
  ghost predicate Lookup<V(!new)>(c: Cache<V>, capacity: nat, key: string, built: V, c': Cache<V>, result: V) {
    && c'.clock == Tick(c.clock)
    && if key in c.entries then
         result == c.entries[key].value && c'.entries == c.entries[key := Slot(result, c'.clock)]
       else
         result == built && Trimmed(c.entries[key := Slot(built, c'.clock)], capacity, c'.entries)
  }

  // ----- the cache object

  class MarkdownRenderCache<V(!new)> {
    var entries: map<string, Slot<V>>
    var clock: nat
    const capacity: nat

    function State(): Cache<V>
      reads this
    {
      Cache(entries, clock)
    }

    constructor (capacity: nat)
      ensures State() == Cache(map[], 0) && this.capacity == capacity
    {
      this.capacity := capacity;
      entries, clock := map[], 0;
    }

    method Rendered(key: string, build: () -> V) returns (result: V)
      modifies this
      ensures Lookup(old(State()), capacity, key, build(), State(), result)
    {
      clock := Tick(clock);
      if key in entries {
        var hit := entries[key];
        entries := entries[key := Slot(hit.value, clock)];
        return hit.value;
      }
      result := build();
      entries := entries[key := Slot(result, clock)];
      EvictIfNeeded();
    }

    /** Removes the oldest entries one after the other, as sorting by stamp and dropping a prefix does. */
    method EvictIfNeeded()
      modifies this`entries
      ensures Trimmed(old(entries), capacity, entries)
    {
      while |entries| > capacity
        invariant entries.Keys <= old(entries).Keys && forall k :: k in entries ==> entries[k] == old(entries)[k]
        invariant |entries| >= Min(|old(entries)|, capacity)
        invariant forall k, j :: k in entries && j in old(entries) && j !in entries ==>
                    old(entries)[j].lastUsed <= old(entries)[k].lastUsed
        decreases |entries|
      {
        var oldest := Oldest();
        assert entries.Keys == (entries - {oldest}).Keys + {oldest};
        entries := entries - {oldest};
      }
    }

    method Oldest() returns (key: string)
      requires |entries| > 0
      ensures key in entries && forall k :: k in entries ==> entries[key].lastUsed <= entries[k].lastUsed
    {
      var left := entries.Keys;
      assert |left| > 0;
      key :| key in left;
      left := left - {key};
      while left != {}
        invariant left <= entries.Keys && key in entries
        invariant forall k :: k in entries && k !in left ==> entries[key].lastUsed <= entries[k].lastUsed
        decreases |left|
      {
        var k :| k in left;
        if entries[k].lastUsed < entries[key].lastUsed { key := k; }
        left := left - {k};
      }
    }

    method RemoveAll()
      modifies this
      ensures State() == Cache(map[], 0)
    {
      entries, clock := map[], 0;
    }
  }

  // ----- the reference: which keys are the most recently used

  /** One plus the position of the last use; zero for a key never used. */
  function LastUse(calls: seq<string>, k: string): nat {
    if calls == [] then 0
    else if calls[|calls| - 1] == k then |calls|
    else LastUse(calls[..|calls| - 1], k)
  }

  lemma {:induction false} LastUseFacts(calls: seq<string>, k: string)
    ensures LastUse(calls, k) <= |calls|
    ensures LastUse(calls, k) > 0 <==> k in calls
    ensures LastUse(calls, k) > 0 ==> calls[LastUse(calls, k) - 1] == k
  {
    if calls != [] {
      LastUseFacts(calls[..|calls| - 1], k);
      assert calls == calls[..|calls| - 1] + [calls[|calls| - 1]];
    }
  }

  lemma LastUseInjective(calls: seq<string>, j: string, k: string)
    requires j in calls && LastUse(calls, j) == LastUse(calls, k)
    ensures j == k
  {
    LastUseFacts(calls, j);
    LastUseFacts(calls, k);
  }

  function Used(calls: seq<string>): set<string> {
    set k | k in calls
  }

  /** The distinct keys used more recently than `k`. */
  function Newer(calls: seq<string>, k: string): set<string> {
    set j | j in Used(calls) && LastUse(calls, k) < LastUse(calls, j)
  }

  /** The `c` most recently used distinct keys: those with fewer than `c` newer ones. */
  function MostRecent(calls: seq<string>, c: nat): set<string> {
    set k | k in Used(calls) && |Newer(calls, k)| < c
  }

  lemma NewerChain(calls: seq<string>, j: string, k: string)
    requires j in Newer(calls, k)
    ensures Newer(calls, j) < Newer(calls, k)
    ensures |Newer(calls, j)| < |Newer(calls, k)|
  {
    assert j !in Newer(calls, j);
    SubsetSize(Newer(calls, j), Newer(calls, k) - {j});
  }

  lemma {:induction false} SubsetSize<T>(a: set<T>, b: set<T>)
    requires a <= b
    ensures |a| <= |b|
  {
    assert b == a + (b - a);
  }

  /** The element of a non-empty set of used keys that was used longest ago. */
  lemma {:induction false} Eldest(calls: seq<string>, s: set<string>) returns (e: string)
    requires s != {} && s <= Used(calls)
    ensures e in s && s - {e} <= Newer(calls, e)
    decreases |s|
  {
    e :| e in s;
    if s != {e} {
      var rest := s - {e};
      var f := Eldest(calls, rest);
      if LastUse(calls, f) < LastUse(calls, e) {
        e := f;
      } else {
        LastUseDistinct(calls, e, f);
        assert forall x :: x in rest - {f} ==> LastUse(calls, f) < LastUse(calls, x);
      }
    }
  }

  lemma LastUseDistinct(calls: seq<string>, j: string, k: string)
    requires j in calls && j != k
    ensures LastUse(calls, j) != LastUse(calls, k)
  {
    if LastUse(calls, j) == LastUse(calls, k) { LastUseInjective(calls, j, k); }
  }

  lemma MostRecentSize(calls: seq<string>, c: nat)
    ensures |MostRecent(calls, c)| <= c
  {
    var m := MostRecent(calls, c);
    if m != {} {
      var e := Eldest(calls, m);
      SubsetSize(m - {e}, Newer(calls, e));
      assert |m| == |m - {e}| + 1;
    }
  }

  // ----- one more call

  lemma LastUseSnoc(calls: seq<string>, x: string, k: string)
    ensures LastUse(calls + [x], k) == if k == x then |calls| + 1 else LastUse(calls, k)
  {
    assert (calls + [x])[..|calls|] == calls;
  }

  lemma NewerSnoc(calls: seq<string>, x: string, k: string)
    ensures Newer(calls + [x], k) == if k == x then {} else Newer(calls, k) - {x} + {x}
  {
    var calls' := calls + [x];
    assert Used(calls') == Used(calls) + {x};
    forall j ensures j in Newer(calls', k) <==> j in (if k == x then {} else Newer(calls, k) - {x} + {x}) {
      LastUseSnoc(calls, x, k);
      LastUseSnoc(calls, x, j);
      LastUseFacts(calls, j);
      LastUseFacts(calls, k);
    }
  }

  /** Using a key again that is among the most recent changes nothing but the order. */
  lemma HitKeepsMostRecent(calls: seq<string>, c: nat, x: string)
    requires x in MostRecent(calls, c)
    ensures MostRecent(calls + [x], c) == MostRecent(calls, c)
  {
    assert Used(calls + [x]) == Used(calls);
    forall k | k in Used(calls)
      ensures |Newer(calls + [x], k)| < c <==> |Newer(calls, k)| < c
    {
      NewerSnoc(calls, x, k);
      if k != x {
        LastUseDistinct(calls, k, x);
        if x in Newer(calls, k) {
          assert Newer(calls, k) - {x} + {x} == Newer(calls, k);
        } else {
          assert k in Newer(calls, x);
          NewerChain(calls, k, x);
          assert Newer(calls, k) - {x} == Newer(calls, k);
        }
      }
    }
  }

  /** The most recent keys that stay most recent when one more key comes in. */
  function Younger(calls: seq<string>, c: nat): set<string> {
    set k | k in MostRecent(calls, c) && |Newer(calls, k)| + 1 < c
  }

  lemma MissAges(calls: seq<string>, c: nat, x: string, k: string)
    requires x !in MostRecent(calls, c) && k in Used(calls) && k != x
    ensures |Newer(calls + [x], k)| < c <==> |Newer(calls, k)| + 1 < c
  {
    NewerSnoc(calls, x, k);
    if x in Newer(calls, k) {
      NewerChain(calls, x, k);
      assert Newer(calls, k) - {x} + {x} == Newer(calls, k);
    } else {
      assert Newer(calls, k) - {x} == Newer(calls, k);
    }
  }

  /** Using a key that is not among the most recent brings it in and ages everyone by one. */
  lemma MissShiftsMostRecent(calls: seq<string>, c: nat, x: string)
    requires x !in MostRecent(calls, c) && c > 0
    ensures MostRecent(calls + [x], c) == {x} + Younger(calls, c)
  {
    assert Used(calls + [x]) == Used(calls) + {x};
    NewerSnoc(calls, x, x);
    forall k | k in Used(calls) && k != x ensures k in MostRecent(calls + [x], c) <==> k in Younger(calls, c) {
      MissAges(calls, c, x, k);
    }
  }

  /** Everything newer than a most recent key is itself most recent. */
  lemma NewerWithinMostRecent(calls: seq<string>, c: nat, k: string)
    requires k in MostRecent(calls, c)
    ensures Newer(calls, k) <= MostRecent(calls, c) - {k}
  {
    forall j | j in Newer(calls, k) ensures j in MostRecent(calls, c) {
      NewerChain(calls, j, k);
    }
  }

  // ----- exactness

  /** The cache holds exactly the most recently used keys, each stamped with its last use. */
  ghost predicate Exact<V(!new)>(c: Cache<V>, capacity: nat, calls: seq<string>) {
    && c.clock == |calls|
    && c.entries.Keys == MostRecent(calls, capacity)
    && forall k :: k in c.entries ==> c.entries[k].lastUsed == LastUse(calls, k)
  }

  /** With room to spare, no key ages out. */
  lemma RoomForAll(calls: seq<string>, c: nat)
    requires |MostRecent(calls, c)| < c
    ensures Younger(calls, c) == MostRecent(calls, c)
  {
    var m := MostRecent(calls, c);
    forall k | k in m ensures |Newer(calls, k)| + 1 < c {
      NewerWithinMostRecent(calls, c, k);
      SubsetSize(Newer(calls, k), m - {k});
    }
  }

  /** When full, exactly the eldest ages out. */
  lemma EldestAgesOut(calls: seq<string>, c: nat, e: string)
    requires |MostRecent(calls, c)| == c && e in MostRecent(calls, c)
    requires MostRecent(calls, c) - {e} <= Newer(calls, e)
    ensures Younger(calls, c) == MostRecent(calls, c) - {e}
  {
    var m := MostRecent(calls, c);
    SubsetSize(m - {e}, Newer(calls, e));
    forall k | k in m && k != e ensures |Newer(calls, k)| + 1 < c {
      NewerWithinMostRecent(calls, c, k);
      assert k in Newer(calls, e) && e !in Newer(calls, k);
      SubsetSize(Newer(calls, k), m - {k} - {e});
    }
  }

  lemma MissIsExact<V(!new)>(c: Cache<V>, capacity: nat, calls: seq<string>, x: string, built: V, c': Cache<V>)
    requires Exact(c, capacity, calls) && x !in c.entries && |calls| + 1 < CLOCK_RANGE
    requires Lookup(c, capacity, x, built, c', built)
    ensures c'.entries.Keys == MostRecent(calls + [x], capacity)
  {
    MostRecentSize(calls, capacity);
    var m, full := MostRecent(calls, capacity), c.entries[x := Slot(built, c'.clock)];
    assert full.Keys == m + {x} && |full.Keys| == |m| + 1;
    if capacity == 0 {
      assert |c'.entries.Keys| == 0;
    } else {
      MissShiftsMostRecent(calls, capacity, x);
      if |m| < capacity {
        KeptAll(full, c'.entries);
        RoomForAll(calls, capacity);
      } else {
        EvictsEldest(c, capacity, calls, x, built, c');
      }
    }
  }

  lemma EvictsEldest<V(!new)>(c: Cache<V>, capacity: nat, calls: seq<string>, x: string, built: V, c': Cache<V>)
    requires Exact(c, capacity, calls) && x !in c.entries && |calls| + 1 < CLOCK_RANGE
    requires Lookup(c, capacity, x, built, c', built)
    requires 0 < capacity == |MostRecent(calls, capacity)|
    ensures c'.entries.Keys == {x} + Younger(calls, capacity)
  {
    var m := MostRecent(calls, capacity);
    var e := Eldest(calls, m);
    EldestAgesOut(calls, capacity, e);
    LookupTrims(c, capacity, calls, x, built, c');
    StampsFollowUse(c, capacity, calls, x, built, e);
    var full := c.entries[x := Slot(built, |calls| + 1)];
    assert full.Keys == m + {x};
    TrimDropsEldest(full, m, x, capacity, c'.entries, e);
  }

  lemma LookupTrims<V(!new)>(c: Cache<V>, capacity: nat, calls: seq<string>, x: string, built: V, c': Cache<V>)
    requires Exact(c, capacity, calls) && x !in c.entries && |calls| + 1 < CLOCK_RANGE
    requires Lookup(c, capacity, x, built, c', built)
    ensures c'.clock == |calls| + 1
    ensures Trimmed(c.entries[x := Slot(built, |calls| + 1)], capacity, c'.entries)
  {
    TickPlain(|calls|);
    assert Trimmed(c.entries[x := Slot(built, c'.clock)], capacity, c'.entries);
  }

  lemma TickPlain(n: nat)
    requires n + 1 < CLOCK_RANGE
    ensures Tick(n) == n + 1
  {
  }

  lemma TrimDropsEldest<V(!new)>(full: map<string, Slot<V>>, m: set<string>, x: string, capacity: nat,
                          kept: map<string, Slot<V>>, e: string)
    requires full.Keys == m + {x} && x !in m && |m| == capacity && e in m
    requires Trimmed(full, capacity, kept)
    requires forall k :: k in full && k != e ==> full[e].lastUsed < full[k].lastUsed
    ensures kept.Keys == {x} + (m - {e})
  {
    assert |full| == |full.Keys| == capacity + 1;
    OneMissing(full, kept, e);
  }

  lemma StampsFollowUse<V(!new)>(c: Cache<V>, capacity: nat, calls: seq<string>, x: string, built: V, e: string)
    requires Exact(c, capacity, calls) && x !in c.entries && e in c.entries
    requires MostRecent(calls, capacity) - {e} <= Newer(calls, e)
    ensures var full := c.entries[x := Slot(built, |calls| + 1)];
            forall k :: k in full && k != e ==> full[e].lastUsed < full[k].lastUsed
  {
    LastUseFacts(calls, e);
    var full := c.entries[x := Slot(built, |calls| + 1)];
    forall k | k in full && k != e ensures full[e].lastUsed < full[k].lastUsed {
      if k != x { assert k in Newer(calls, e); }
    }
  }

  lemma KeptAll<V(!new)>(full: map<string, Slot<V>>, kept: map<string, Slot<V>>)
    requires kept.Keys <= full.Keys && |kept| == |full|
    ensures kept.Keys == full.Keys
  {
    SubsetDifference(kept.Keys, full.Keys);
  }

  /** If one entry went, and `e` carries the strictly smallest stamp, it is `e` that went. */
  lemma OneMissing<V(!new)>(full: map<string, Slot<V>>, kept: map<string, Slot<V>>, e: string)
    requires kept.Keys <= full.Keys && |kept| + 1 == |full| && e in full
    requires forall k :: k in full && k != e ==> full[e].lastUsed < full[k].lastUsed
    requires forall k, j :: k in kept && j in full && j !in kept ==> full[j].lastUsed <= full[k].lastUsed
    ensures kept.Keys == full.Keys - {e}
  {
    SubsetDifference(kept.Keys, full.Keys);
    var j :| j in full.Keys - kept.Keys;
    assert j == e || full[e].lastUsed < full[j].lastUsed;
    assert e !in kept;
    SubsetDifference(kept.Keys, full.Keys - {e});
  }

  lemma SubsetDifference<T>(a: set<T>, b: set<T>)
    requires a <= b
    ensures |b| - |a| == |b - a|
    ensures |a| == |b| ==> a == b
    ensures |a| < |b| ==> exists x :: x in b - a
  {
    assert b == a + (b - a);
    if b - a != {} { var x :| x in b - a; }
  }

  lemma HitIsExact<V(!new)>(c: Cache<V>, capacity: nat, calls: seq<string>, x: string, built: V, c': Cache<V>,
                     result: V)
    requires Exact(c, capacity, calls) && |calls| + 1 < CLOCK_RANGE && x in c.entries
    requires Lookup(c, capacity, x, built, c', result)
    ensures Exact(c', capacity, calls + [x])
  {
    HitKeepsMostRecent(calls, capacity, x);
    assert c'.entries.Keys == c.entries.Keys;
    forall k | k in c'.entries ensures c'.entries[k].lastUsed == LastUse(calls + [x], k) {
      LastUseSnoc(calls, x, k);
    }
  }

  lemma LookupIsExact<V(!new)>(c: Cache<V>, capacity: nat, calls: seq<string>, x: string, built: V, c': Cache<V>,
                        result: V)
    requires Exact(c, capacity, calls) && |calls| + 1 < CLOCK_RANGE
    requires Lookup(c, capacity, x, built, c', result)
    ensures Exact(c', capacity, calls + [x])
  {
    if x in c.entries {
      HitIsExact(c, capacity, calls, x, built, c', result);
    } else {
      MissIsExact(c, capacity, calls, x, built, c');
      LookupTrims(c, capacity, calls, x, built, c');
      forall k | k in c'.entries ensures c'.entries[k].lastUsed == LastUse(calls + [x], k) {
        LastUseSnoc(calls, x, k);
      }
    }
  }

  // ----- runs

  /** A run of lookups from an empty cache. */
  ghost predicate IsRun<V(!new)>(states: seq<Cache<V>>, capacity: nat, keys: seq<string>, built: seq<V>,
                          results: seq<V>) {
    && |states| == |keys| + 1 && |built| == |results| == |keys|
    && states[0] == Cache(map[], 0)
    && forall n :: 0 <= n < |keys| ==> Lookup(states[n], capacity, keys[n], built[n], states[n + 1], results[n])
  }

  /** LRU exactness: after any sequence of calls that the clock can count, the cache holds exactly the
      `capacity` most recently used distinct keys. */
  lemma {:induction false} RunIsExact<V(!new)>(states: seq<Cache<V>>, capacity: nat, keys: seq<string>, built: seq<V>,
                                        results: seq<V>, n: nat)
    requires IsRun(states, capacity, keys, built, results) && n <= |keys| && n < CLOCK_RANGE
    ensures Exact(states[n], capacity, keys[..n])
  {
    if n > 0 {
      RunIsExact(states, capacity, keys, built, results, n - 1);
      assert Lookup(states[n - 1], capacity, keys[n - 1], built[n - 1], states[n], results[n - 1]);
      assert keys[..n] == keys[..n - 1] + [keys[n - 1]];
      LookupIsExact(states[n - 1], capacity, keys[..n - 1], keys[n - 1], built[n - 1], states[n], results[n - 1]);
    }
  }

  // ----- the call that wraps the clock

  /** A miss with room to spare, or in a cache without any, is exact whatever the clock says. */
  lemma RoomyMissIsExact<V(!new)>(c: Cache<V>, capacity: nat, calls: seq<string>, x: string, built: V, c': Cache<V>,
                           result: V)
    requires Exact(c, capacity, calls) && x !in c.entries
    requires |c.entries| < capacity || capacity == 0
    requires Lookup(c, capacity, x, built, c', result)
    ensures c'.entries.Keys == MostRecent(calls + [x], capacity)
  {
    var full := c.entries[x := Slot(built, c'.clock)];
    assert full.Keys == c.entries.Keys + {x} && |full.Keys| == |c.entries.Keys| + 1;
    if capacity > 0 {
      RoomForAll(calls, capacity);
      MissShiftsMostRecent(calls, capacity, x);
      KeptAll(full, c'.entries);
    }
  }

  /** In a full cache the wrapping call evicts its own key: the new stamp is the smallest of all. */
  lemma WrapEvictsTheNewest<V(!new)>(c: Cache<V>, capacity: nat, calls: seq<string>, x: string, built: V,
                              c': Cache<V>, result: V)
    requires Exact(c, capacity, calls) && |calls| == CLOCK_RANGE - 1
    requires x !in c.entries && 0 < capacity == |c.entries|
    requires Lookup(c, capacity, x, built, c', result)
    ensures c'.entries.Keys == c.entries.Keys && x !in c'.entries
  {
    var full := c.entries[x := Slot(built, 0)];
    assert full.Keys == c.entries.Keys + {x} && |full.Keys| == |c.entries.Keys| + 1;
    forall k | k in full && k != x ensures full[x].lastUsed < full[k].lastUsed {
      LastUseFacts(calls, k);
    }
    OneMissing(full, c'.entries, x);
  }

  /** Exactness at the wrap: the call that wraps the clock leaves the most recently used keys if and
      only if it hits, or the cache is not full, or it never holds anything. */
  lemma WrapIsExactIff<V(!new)>(c: Cache<V>, capacity: nat, calls: seq<string>, x: string, built: V, c': Cache<V>,
                         result: V)
    requires Exact(c, capacity, calls) && |calls| == CLOCK_RANGE - 1
    requires Lookup(c, capacity, x, built, c', result)
    ensures c'.entries.Keys == MostRecent(calls + [x], capacity) <==>
              x in c.entries || |c.entries| < capacity || capacity == 0
  {
    MostRecentSize(calls, capacity);
    assert |c.entries| == |c.entries.Keys| <= capacity;
    if x in c.entries {
      HitKeepsMostRecent(calls, capacity, x);
      assert c'.entries.Keys == c.entries.Keys;
    } else if |c.entries| < capacity || capacity == 0 {
      RoomyMissIsExact(c, capacity, calls, x, built, c', result);
    } else {
      WrapEvictsTheNewest(c, capacity, calls, x, built, c', result);
      MissShiftsMostRecent(calls, capacity, x);
      assert x in MostRecent(calls + [x], capacity);
    }
  }

  /** The same for runs: the first call that the clock cannot count. */
  lemma RunWrapsExactlyIff<V(!new)>(states: seq<Cache<V>>, capacity: nat, keys: seq<string>, built: seq<V>,
                             results: seq<V>)
    requires IsRun(states, capacity, keys, built, results) && |keys| >= CLOCK_RANGE
    ensures var n := CLOCK_RANGE - 1;
            states[n + 1].entries.Keys == MostRecent(keys[..n + 1], capacity) <==>
              keys[n] in states[n].entries || |states[n].entries| < capacity || capacity == 0
  {
    var n := CLOCK_RANGE - 1;
    RunIsExact(states, capacity, keys, built, results, n);
    WrapIsExactIff(states[n], capacity, keys[..n], keys[n], built[n], states[n + 1], results[n]);
    assert keys[..n] + [keys[n]] == keys[..n + 1];
  }

  /** Equal keys stand for equal builds: then every call returns what building afresh would. */
  lemma {:induction false} RunIsTransparent<V(!new)>(states: seq<Cache<V>>, capacity: nat, keys: seq<string>,
                                              built: seq<V>, results: seq<V>, n: nat)
    requires IsRun(states, capacity, keys, built, results) && n <= |keys|
    requires forall i, j :: 0 <= i < |keys| && 0 <= j < |keys| && keys[i] == keys[j] ==> built[i] == built[j]
    ensures forall k, i :: k in states[n].entries && 0 <= i < |keys| && keys[i] == k ==>
              states[n].entries[k].value == built[i]
    ensures forall i :: 0 <= i < n ==> results[i] == built[i]
  {
    if n > 0 {
      RunIsTransparent(states, capacity, keys, built, results, n - 1);
      assert Lookup(states[n - 1], capacity, keys[n - 1], built[n - 1], states[n], results[n - 1]);
    }
  }

  // ----- the key built in `renderedText`

  datatype Named = Named(id: string, block: Block)

  datatype Request = Request(metricsKey: string, prefix: string, depth: int, blocks: seq<Named>)

  function Ids(bs: seq<Named>): seq<string> {
    seq(|bs|, k requires 0 <= k < |bs| => bs[k].id)
  }

  function Blocks(bs: seq<Named>): seq<Block> {
    seq(|bs|, k requires 0 <= k < |bs| => bs[k].block)
  }

  /** `joined(separator: ",")`. */
  function Joined(ids: seq<string>): string {
    if ids == [] then "" else if |ids| == 1 then ids[0] else ids[0] + "," + Joined(ids[1..])
  }

  function KeyOf(r: Request): string {
    r.metricsKey + "|" + (r.prefix + "|" + (Decimal(r.depth) + "|" + Joined(Ids(r.blocks))))
  }

  /** What the direct builder call would return, on its text and source sides. */
  function Direct(r: Request): seq<Piece> {
    Document(r.prefix, Blocks(r.blocks))
  }

  /** The parts of a key do not contain its separators, and no id is empty. */
  predicate Separable(r: Request) {
    && '|' !in r.metricsKey && '|' !in r.prefix
    && forall k :: 0 <= k < |r.blocks| ==> r.blocks[k].id != "" && ',' !in r.blocks[k].id
  }

  lemma HeadsAgree(a: string, x: string, b: string, y: string, sep: char)
    requires sep !in a && sep !in b && a + [sep] + x == b + [sep] + y
    ensures a == b && x == y
  {
    var s := a + [sep] + x;
    assert s[|a|] == sep && s[|b|] == sep;
    assert forall k :: 0 <= k < |a| ==> s[k] == a[k] != sep;
    assert forall k :: 0 <= k < |b| ==> s[k] == b[k] != sep;
    assert |a| == |b|;
    assert a == s[..|a|] == b && x == s[|a| + 1..] == y;
  }

  lemma {:induction false} JoinedInjective(a: seq<string>, b: seq<string>)
    requires forall k :: 0 <= k < |a| ==> a[k] != "" && ',' !in a[k]
    requires forall k :: 0 <= k < |b| ==> b[k] != "" && ',' !in b[k]
    requires Joined(a) == Joined(b)
    ensures a == b
    decreases |a|
  {
    CommaMeansMany(a);
    CommaMeansMany(b);
    if |a| > 1 {
      HeadsAgree(a[0], Joined(a[1..]), b[0], Joined(b[1..]), ',');
      JoinedInjective(a[1..], b[1..]);
      assert a == [a[0]] + a[1..] && b == [b[0]] + b[1..];
    }
  }

  lemma CommaMeansMany(ids: seq<string>)
    requires forall k :: 0 <= k < |ids| ==> ids[k] != "" && ',' !in ids[k]
    ensures ',' in Joined(ids) <==> |ids| > 1
    ensures Joined(ids) == "" <==> ids == []
  {
    if |ids| > 1 { assert Joined(ids)[|ids[0]|] == ','; }
  }

  lemma DigitsHaveNoBar(n: int)
    ensures '|' !in Decimal(n)
  {
  }

  /** Equal keys come from requests with equal parts. */
  lemma KeyDeterminesIds(p: Request, q: Request)
    requires Separable(p) && Separable(q) && KeyOf(p) == KeyOf(q)
    ensures p.metricsKey == q.metricsKey && p.prefix == q.prefix && p.depth == q.depth
    ensures Ids(p.blocks) == Ids(q.blocks)
  {
    DigitsHaveNoBar(p.depth);
    DigitsHaveNoBar(q.depth);
    var tp, tq := Decimal(p.depth) + "|" + Joined(Ids(p.blocks)), Decimal(q.depth) + "|" + Joined(Ids(q.blocks));
    HeadsAgree(p.metricsKey, p.prefix + "|" + tp, q.metricsKey, q.prefix + "|" + tq, '|');
    HeadsAgree(p.prefix, tp, q.prefix, tq, '|');
    HeadsAgree(Decimal(p.depth), Joined(Ids(p.blocks)), Decimal(q.depth), Joined(Ids(q.blocks)), '|');
    JoinedInjective(Ids(p.blocks), Ids(q.blocks));
    DecimalInjective(p.depth, q.depth);
  }

  /** Block ids are hashes of the block: equal ids name equal blocks throughout the run. */
  ghost predicate IdsDetermineBlocks(requests: seq<Request>) {
    forall i, j, a, b ::
      (0 <= i < |requests| && 0 <= j < |requests| &&
       0 <= a < |requests[i].blocks| && 0 <= b < |requests[j].blocks| &&
       requests[i].blocks[a].id == requests[j].blocks[b].id)
      ==> requests[i].blocks[a].block == requests[j].blocks[b].block
  }

  /** Transparency: `renderedText` returns what the direct builder call would, on every run. */
  lemma RenderedTextIsTransparent(states: seq<Cache<seq<Piece>>>, capacity: nat, requests: seq<Request>,
                                  results: seq<seq<Piece>>)
    requires forall r :: r in requests ==> Separable(r)
    requires IdsDetermineBlocks(requests)
    requires IsRun(states, capacity, seq(|requests|, k requires 0 <= k < |requests| => KeyOf(requests[k])),
                   seq(|requests|, k requires 0 <= k < |requests| => Direct(requests[k])), results)
    ensures forall n :: 0 <= n < |requests| ==> results[n] == Direct(requests[n])
  {
    var keys := seq(|requests|, k requires 0 <= k < |requests| => KeyOf(requests[k]));
    var built := seq(|requests|, k requires 0 <= k < |requests| => Direct(requests[k]));
    forall i, j | 0 <= i < |keys| && 0 <= j < |keys| && keys[i] == keys[j] ensures built[i] == built[j] {
      assert requests[i] in requests && requests[j] in requests;
      KeyDeterminesIds(requests[i], requests[j]);
      SameIdsSameBlocks(requests, i, j);
    }
    RunIsTransparent(states, capacity, keys, built, results, |requests|);
  }

  lemma SameIdsSameBlocks(requests: seq<Request>, i: nat, j: nat)
    requires i < |requests| && j < |requests| && IdsDetermineBlocks(requests)
    requires Ids(requests[i].blocks) == Ids(requests[j].blocks)
    ensures Blocks(requests[i].blocks) == Blocks(requests[j].blocks)
  {
    var p, q := requests[i].blocks, requests[j].blocks;
    assert |Ids(p)| == |p| && |Ids(q)| == |q|;
    forall k | 0 <= k < |p| ensures p[k].block == q[k].block {
      assert Ids(p)[k] == p[k].id && Ids(q)[k] == q[k].id;
    }
  }

  /** Without the side condition two runs can share a key: an id may contain the separator. */
  lemma KeysCollideOnSeparators(x: Block, y: Block, z: Block)
    ensures KeyOf(Request("t", "", 0, [Named("a,b", x)])) == KeyOf(Request("t", "", 0, [Named("a", y), Named("b", z)]))
  {
    assert Ids([Named("a,b", x)]) == ["a,b"];
    assert Ids([Named("a", y), Named("b", z)]) == ["a", "b"];
    assert ["a", "b"][1..] == ["b"];
    assert "a" + "," + "b" == "a,b";
  }

  /** And then the memo answers the second request with the first one's document. */
  lemma CollisionReturnsTheWrongText(states: seq<Cache<seq<Piece>>>, capacity: nat, results: seq<seq<Piece>>)
    requires capacity > 0
    requires var p := Request("t", "", 0, [Named("a,b", Native)]);
             var q := Request("t", "", 0, [Named("a", Native), Named("b", Native)]);
             IsRun(states, capacity, [KeyOf(p), KeyOf(q)], [Direct(p), Direct(q)], results)
    ensures var p := Request("t", "", 0, [Named("a,b", Native)]);
            var q := Request("t", "", 0, [Named("a", Native), Named("b", Native)]);
            results[1] == Direct(p) && Direct(p) != Direct(q)
  {
    var p := Request("t", "", 0, [Named("a,b", Native)]);
    var q := Request("t", "", 0, [Named("a", Native), Named("b", Native)]);
    KeysCollideOnSeparators(Native, Native, Native);
    NativeDocuments();
    assert Blocks(p.blocks) == [Native] && Blocks(q.blocks) == [Native, Native];
    FirstCallStores(states, capacity, [KeyOf(p), KeyOf(q)], [Direct(p), Direct(q)], results);
    assert Lookup(states[1], capacity, KeyOf(q), Direct(q), states[2], results[1]);
  }

  lemma NativeDocuments()
    ensures Document("", [Native]) == [] && Document("", [Native, Native]) == [Separator("\n\n")]
  {
    var two := [Native, Native];
    assert two[..1] == [Native] && [Native][..0] == [];
    assert BlocksPieces("", 0, "\n\n", [Native]) == [];
  }

  lemma FirstCallStores<V(!new)>(states: seq<Cache<V>>, capacity: nat, keys: seq<string>, built: seq<V>,
                          results: seq<V>)
    requires capacity > 0 && |keys| > 0 && IsRun(states, capacity, keys, built, results)
    ensures keys[0] in states[1].entries && states[1].entries[keys[0]].value == built[0]
  {
    var full: map<string, Slot<V>> := map[keys[0] := Slot(built[0], 1)];
    assert Lookup(states[0], capacity, keys[0], built[0], states[1], results[0]);
    assert map[][keys[0] := Slot(built[0], 1)] == full && |full.Keys| == 1;
    KeptAll(full, states[1].entries);
  }
}
