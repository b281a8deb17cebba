/** The bounded caches of GenericCache.py, MetricCache.py and TopCache.py. Times are counted
    from a fixed past moment; the results of queries are parameters. */
module LruCache {
  import opened Prelude

  /** `cachedTime` is the moment after which the value is computed anew. */
  datatype Entry<V> = Entry(cachedTime: nat, value: V, lastAccessed: nat)

  function Times<K, V>(cache: map<K, Entry<V>>): set<nat> {
    set k | k in cache :: cache[k].lastAccessed
  }

  ghost predicate DistinctTimes<K, V>(cache: map<K, Entry<V>>) {
    forall j, k :: j in cache && k in cache && j != k ==> cache[j].lastAccessed != cache[k].lastAccessed
  }

  /** The second cache is the first without some entries, none of which was used later than
      one that stays. */
  ghost predicate DropsOldest<K, V>(cache: map<K, Entry<V>>, left: map<K, Entry<V>>) {
    && (forall k :: k in left ==> k in cache && left[k] == cache[k])
    && (forall j, k :: j in cache && j !in left && k in left ==> cache[j].lastAccessed <= cache[k].lastAccessed)
  }

  function AtLeastZero(n: int): nat {
    if n < 0 then 0 else n
  }

  /** The size of a full cache after making room. */
  function SizeLeft<K, V>(cache: map<K, Entry<V>>, limit: nat): int {
    |cache| - AtLeastZero(|Times(cache)| - limit + 1)
  }

  // ---------------------------------------------------------------- check_cache_limit

  ghost predicate Increasing(s: seq<nat>) {
    forall i, j :: 0 <= i < j < |s| ==> s[i] < s[j]
  }

  lemma {:induction false} LeastTime(s: set<nat>, x: nat)
    requires x in s
    ensures exists t :: t in s && forall u :: u in s ==> t <= u
    decreases x
  {
    if y :| y in s && y < x {
      LeastTime(s, y);
    }
  }

  lemma IncreasingAppend(s: seq<nat>, t: nat)
    requires Increasing(s) && (s != [] ==> s[|s| - 1] < t)
    ensures Increasing(s + [t])
  {
  }

  method Least(s: set<nat>) returns (t: nat)
    requires s != {}
    ensures t in s && forall u :: u in s ==> t <= u
  {
    ghost var x :| x in s;
    LeastTime(s, x);
    t :| t in s && forall u :: u in s ==> t <= u;
  }

  /** `keys.sort()` */
  method SortTimes(times: set<nat>) returns (sorted: seq<nat>)
    ensures Increasing(sorted) && |sorted| == |times|
    ensures forall t :: t in sorted <==> t in times
  {
    sorted := [];
    var rest := times;
    while rest != {}
      invariant rest <= times && |sorted| + |rest| == |times|
      invariant Increasing(sorted)
      invariant forall t :: t in times <==> t in sorted || t in rest
      invariant sorted != [] ==> forall u :: u in rest ==> sorted[|sorted| - 1] < u
      decreases |rest|
    {
      var t := Least(rest);
      IncreasingAppend(sorted, t);
      sorted := sorted + [t];
      rest := rest - {t};
    }
  }

  /** The dictionary from access time to key; of keys with one time only one remains. */
  method KeysByTime<K(==), V>(cache: map<K, Entry<V>>) returns (byTime: map<nat, K>)
    ensures forall t :: t in byTime ==> byTime[t] in cache && cache[byTime[t]].lastAccessed == t
    ensures byTime.Keys == Times(cache)
  {
    byTime := map[];
    var rest := cache.Keys;
    while rest != {}
      invariant rest <= cache.Keys
      invariant forall t :: t in byTime ==> byTime[t] in cache && cache[byTime[t]].lastAccessed == t
      invariant forall k :: k in cache && k !in rest ==> cache[k].lastAccessed in byTime
      decreases |rest|
    {
      var k :| k in rest;
      rest := rest - {k};
      byTime := byTime[cache[k].lastAccessed := k];
    }
    assert forall k :: k in cache ==> k !in rest;
  }

  lemma TimesWithout<K, V>(cache: map<K, Entry<V>>, k: K)
    requires k in cache && DistinctTimes(cache)
    ensures DistinctTimes(cache - {k}) && |cache - {k}| == |cache| - 1
    ensures Times(cache) == Times(cache - {k}) + {cache[k].lastAccessed}
    ensures cache[k].lastAccessed !in Times(cache - {k})
  {
    assert (cache - {k}).Keys == cache.Keys - {k};
    forall t: nat ensures t in Times(cache) <==> t in Times(cache - {k}) + {cache[k].lastAccessed} {
      if t in Times(cache) && t != cache[k].lastAccessed {
        var j :| j in cache && cache[j].lastAccessed == t;
        assert j in cache - {k};
      }
    }
  }

  /** Different times are as many as the entries. */
  lemma {:induction false} DistinctCount<K, V>(cache: map<K, Entry<V>>)
    requires DistinctTimes(cache)
    ensures |Times(cache)| == |cache|
    decreases |cache|
  {
    if cache.Keys == {} {
      assert Times(cache) == {} && |cache| == |cache.Keys|;
    } else {
      var k :| k in cache.Keys;
      TimesWithout(cache, k);
      DistinctCount(cache - {k});
    }
  }

  /** The entries whose times come first among those of the sorted list go. */
  lemma OldestGone<K, V>(cache: map<K, Entry<V>>, left: map<K, Entry<V>>, byTime: map<nat, K>, keys: seq<nat>, i: nat)
    requires DistinctTimes(cache) && i <= |keys| && Increasing(keys)
    requires forall t :: t in keys <==> t in byTime
    requires forall t :: t in byTime ==> byTime[t] in cache && cache[byTime[t]].lastAccessed == t
    requires byTime.Keys == Times(cache)
    requires forall k :: k in left ==> k in cache && left[k] == cache[k]
    requires forall k :: k in cache && k !in left ==> exists j :: 0 <= j < i && byTime[keys[j]] == k
    requires forall j :: 0 <= j < i ==> byTime[keys[j]] !in left
    ensures DropsOldest(cache, left)
  {
    forall a, b | a in cache && a !in left && b in left ensures cache[a].lastAccessed <= cache[b].lastAccessed {
      var j :| 0 <= j < i && byTime[keys[j]] == a;
      var t := cache[b].lastAccessed;
      assert t in Times(cache) && t in keys;
      var m :| 0 <= m < |keys| && keys[m] == t;
      assert byTime[t] == b;
      assert m >= i;
      assert keys[j] in keys;
    }
  }

  /** `check_cache_limit`: when the cache has reached the limit, as many entries go as there
      are access times above limit - 1. If all access times differ, these are the least
      recently used ones, and there is room for one more entry. */
  method CheckCacheLimit<K(==), V>(cache: map<K, Entry<V>>, limit: nat) returns (left: map<K, Entry<V>>)
    ensures |cache| < limit ==> left == cache
    ensures |cache| >= limit >= 1 ==> |left| == SizeLeft(cache, limit)
    ensures forall k :: k in left ==> k in cache && left[k] == cache[k]
    ensures DistinctTimes(cache) ==> DropsOldest(cache, left)
    ensures DistinctTimes(cache) && |cache| >= limit ==> |left| == AtLeastZero(limit - 1)
  {
    left := cache;
    if |cache| >= limit {
      var byTime := KeysByTime(cache);
      var keys := SortTimes(byTime.Keys);
      if DistinctTimes(cache) {
        DistinctCount(cache);
      }
      if |keys| > 0 {
        left := DeleteOldest(cache, byTime, keys, |keys| - limit + 1);
        if DistinctTimes(cache) {
          OldestGone(cache, left, byTime, keys, |cache| - |left|);
        }
      }
    }
  }

  /** `for i in range(0, n): del cache_val[temp_dic[keys[i]]]`; running off the list raises
      an IndexError, which is caught. */
  method DeleteOldest<K(==), V>(cache: map<K, Entry<V>>, byTime: map<nat, K>, keys: seq<nat>, n: int)
    returns (left: map<K, Entry<V>>)
    requires Increasing(keys) && forall t :: t in keys <==> t in byTime
    requires forall t :: t in byTime ==> byTime[t] in cache && cache[byTime[t]].lastAccessed == t
    ensures var gone := if AtLeastZero(n) <= |keys| then AtLeastZero(n) else |keys|;
            && |left| == |cache| - gone
            && (forall k :: k in left ==> k in cache && left[k] == cache[k])
            && (forall k :: k in cache && k !in left ==> exists j :: 0 <= j < gone && byTime[keys[j]] == k)
            && (forall j :: 0 <= j < gone ==> byTime[keys[j]] !in left)
  {
    left := cache;
    var i := 0;
    while i < n && i < |keys|
      invariant 0 <= i <= |keys| && i <= AtLeastZero(n)
      invariant |left| == |cache| - i
      invariant forall k :: k in left ==> k in cache && left[k] == cache[k]
      invariant forall k :: k in cache && k !in left ==> exists j :: 0 <= j < i && byTime[keys[j]] == k
      invariant forall j :: i <= j < |keys| ==> byTime[keys[j]] in left
      invariant forall j :: 0 <= j < i ==> byTime[keys[j]] !in left
    {
      var oldest := byTime[keys[i]];
      DifferentKeys(cache, byTime, keys, i);
      assert (left - {oldest}).Keys == left.Keys - {oldest};
      left := left - {oldest};
      i := i + 1;
    }
  }

  lemma DifferentKeys<K, V>(cache: map<K, Entry<V>>, byTime: map<nat, K>, keys: seq<nat>, i: nat)
    requires Increasing(keys) && i < |keys| && forall t :: t in keys <==> t in byTime
    requires forall t :: t in byTime ==> byTime[t] in cache && cache[byTime[t]].lastAccessed == t
    ensures forall j :: 0 <= j < |keys| && j != i ==> byTime[keys[j]] != byTime[keys[i]]
  {
    forall j | 0 <= j < |keys| && j != i ensures byTime[keys[j]] != byTime[keys[i]] {
      assert keys[i] in byTime && keys[j] in byTime && keys[i] != keys[j];
    }
  }

  lemma {:induction false} TimesBound<K, V>(cache: map<K, Entry<V>>)
    ensures |Times(cache)| <= |cache|
    decreases |cache|
  {
    if cache.Keys == {} {
      assert Times(cache) == {};
    } else {
      var k :| k in cache.Keys;
      var rest := cache - {k};
      assert rest.Keys == cache.Keys - {k};
      TimesBound(rest);
      forall t: nat | t in Times(cache) ensures t in Times(rest) + {cache[k].lastAccessed} {
        var j :| j in cache && cache[j].lastAccessed == t;
        assert j != k ==> j in rest;
      }
      assert Times(cache) <= Times(rest) + {cache[k].lastAccessed};
      SubsetSize(Times(cache), Times(rest) + {cache[k].lastAccessed});
    }
  }

  lemma {:induction false} SubsetSize<T>(a: set<T>, b: set<T>)
    requires a <= b
    ensures |a| <= |b|
  {
    assert |b| == |a| + |b - a| by { assert b == a + (b - a); }
  }

  /** A full or outgrown cache has room for one more entry after the check exactly if no two
      entries were used at the same time. */
  lemma RoomExactlyIfDistinct<K, V>(cache: map<K, Entry<V>>, limit: nat)
    requires |cache| >= limit >= 1
    ensures SizeLeft(cache, limit) < limit <==> DistinctTimes(cache)
  {
    TimesBound(cache);
    if DistinctTimes(cache) {
      DistinctCount(cache);
    } else {
      var j, k :| j in cache && k in cache && j != k && cache[j].lastAccessed == cache[k].lastAccessed;
      var rest := cache - {k};
      assert rest.Keys == cache.Keys - {k} && j in rest;
      TimesBound(rest);
      forall t: nat | t in Times(cache) ensures t in Times(rest) {
        var i :| i in cache && cache[i].lastAccessed == t;
        assert i != k ==> i in rest;
      }
      SubsetSize(Times(cache), Times(rest));
    }
  }

  // ---------------------------------------------------------------- what a caller may rely on

  /** A value that was computed for a key at a time. */
  datatype Computed<K, V> = Computed(key: K, time: nat, value: V)

  /** Within the limit, used at different past moments, and every stored value expires
      CACHE_TIME after it was computed for its key. */
  ghost predicate Healthy<K(!new), V(!new)>(cache: map<K, Entry<V>>, log: set<Computed<K, V>>, now: nat, limit: nat, keep: nat) {
    && |cache| <= limit && DistinctTimes(cache)
    && forall k :: k in cache ==> EntryOk(k, cache[k], log, now, keep)
  }

  predicate EntryOk<K(==), V(==)>(k: K, e: Entry<V>, log: set<Computed<K, V>>, now: nat, keep: nat) {
    e.lastAccessed <= now && keep <= e.cachedTime <= now + keep && Computed(k, e.cachedTime - keep, e.value) in log
  }

  /** The value was computed for the key at most `keep` ago. */
  ghost predicate RecentlyComputed<K(!new), V(!new)>(key: K, value: V, log: set<Computed<K, V>>, now: nat, keep: nat) {
    exists t: nat :: Computed(key, t, value) in log && t <= now <= t + keep
  }

  lemma Fresh<K(!new), V(!new)>(key: K, e: Entry<V>, log: set<Computed<K, V>>, now: nat, keep: nat)
    requires EntryOk(key, e, log, now, keep) && now <= e.cachedTime
    ensures RecentlyComputed(key, e.value, log, now, keep)
  {
    assert Computed(key, e.cachedTime - keep, e.value) in log;
  }

  /** Apart from the key itself, entries disappear only from a full cache, and then all
      that stay were used later. */
  ghost predicate EvictsOldest<K(!new), V(!new)>(before: map<K, Entry<V>>, after: map<K, Entry<V>>, key: K, limit: nat) {
    forall j, k :: j in before && j !in after && k in after && j != key && k != key ==>
      |before| == limit && k in before && before[j].lastAccessed < before[k].lastAccessed
  }

  lemma MakingRoom<K(!new), V(!new)>(cache: map<K, Entry<V>>, left: map<K, Entry<V>>, log: set<Computed<K, V>>, key: K,
                                     now: nat, limit: nat, keep: nat)
    requires Healthy(cache, log, now, limit, keep) && DropsOldest(cache, left) && limit >= 1
    requires |cache| < limit ==> left == cache
    requires |cache| >= limit ==> |left| == limit - 1
    ensures Healthy(left, log, now, limit, keep) && |left| < limit
    ensures EvictsOldest(cache, left, key, limit)
  {
    forall j, k | j in cache && j !in left && k in left ensures cache[j].lastAccessed < cache[k].lastAccessed {
      assert j != k;
    }
  }

  lemma UseDistinct<K(!new), V(!new)>(left: map<K, Entry<V>>, key: K, e: Entry<V>)
    requires DistinctTimes(left) && forall k :: k in left ==> left[k].lastAccessed < e.lastAccessed
    ensures DistinctTimes(left[key := e])
  {
    var after := left[key := e];
    forall j, k | j in after && k in after && j != k ensures after[j].lastAccessed != after[k].lastAccessed {
      assert j != key ==> after[j] == left[j];
      assert k != key ==> after[k] == left[k];
    }
  }

  /** Storing an entry that is used now: a new one into a cache with room, or an old one. */
  lemma UseEntry<K(!new), V(!new)>(left: map<K, Entry<V>>, log: set<Computed<K, V>>,
                                   key: K, e: Entry<V>, before: nat, now: nat, limit: nat, keep: nat)
    requires Healthy(left, log, before, limit, keep) && before < now
    requires e.lastAccessed == now && EntryOk(key, e, log, now, keep)
    requires key in left || |left| < limit
    ensures Healthy(left[key := e], log, now, limit, keep)
  {
    assert forall k :: k in left ==> EntryOk(k, left[k], log, before, keep);
    UseDistinct(left, key, e);
    var after := left[key := e];
    forall k | k in after ensures EntryOk(k, after[k], log, now, keep) {
      assert k != key ==> EntryOk(k, left[k], log, before, keep);
    }
    if key in left {
      assert left[key := e].Keys == left.Keys;
    } else {
      assert left[key := e].Keys == left.Keys + {key};
    }
  }

  lemma UseEvicts<K(!new), V(!new)>(cache: map<K, Entry<V>>, left: map<K, Entry<V>>, key: K, e: Entry<V>, limit: nat)
    requires EvictsOldest(cache, left, key, limit)
    ensures EvictsOldest(cache, left[key := e], key, limit)
  {
    assert forall k :: k in left[key := e] && k != key ==> k in left;
  }

  lemma LogGrows<K(!new), V(!new)>(cache: map<K, Entry<V>>, log: set<Computed<K, V>>, c: Computed<K, V>,
                                   now: nat, limit: nat, keep: nat)
    requires Healthy(cache, log, now, limit, keep)
    ensures Healthy(cache, log + {c}, now, limit, keep)
  {
    forall k | k in cache ensures EntryOk(k, cache[k], log + {c}, now, keep) {
      assert EntryOk(k, cache[k], log, now, keep);
    }
  }

  /** Fewer entries, later. */
  lemma Fewer<K(!new), V(!new)>(cache: map<K, Entry<V>>, left: map<K, Entry<V>>, log: set<Computed<K, V>>,
                                before: nat, now: nat, limit: nat, keep: nat)
    requires Healthy(cache, log, before, limit, keep) && before <= now
    requires forall k :: k in left ==> k in cache && left[k] == cache[k]
    ensures Healthy(left, log, now, limit, keep)
  {
    forall k | k in left ensures EntryOk(k, left[k], log, now, keep) {
      assert EntryOk(k, cache[k], log, before, keep);
    }
    assert left.Keys <= cache.Keys;
    SubsetSize(left.Keys, cache.Keys);
  }

  // ---------------------------------------------------------------- metric_cache

  /** The key of a metric: node, entity type, metric and period. */
  datatype MetricKey = MetricKey(nodeId: string, entityType: string, metric: string, period: string)

  predicate Expired<K(==), V>(cache: map<K, Entry<V>>, key: K, now: nat) {
    key in cache ==> now > cache[key].cachedTime
  }

  /** How many other entries stay when the key is looked up: all of them, or one less than
      the limit if the key is new and the cache full. */
  function RoomFor<K(==), V>(cache: map<K, Entry<V>>, key: K, limit: nat): int {
    if key in cache then |cache| - 1 else if |cache| < limit then |cache| else limit - 1
  }

  /** What happens to the other entries: they stay as they are, and only the least recently
      used ones go, as few as possible. */
  ghost predicate Kept<K(!new), V(!new)>(before: map<K, Entry<V>>, after: map<K, Entry<V>>, key: K, limit: nat) {
    && (forall k :: k in after && k != key ==> k in before && after[k] == before[k])
    && |after - {key}| == RoomFor(before, key, limit)
    && EvictsOldest(before, after, key, limit)
  }

  lemma KeptItself<K(!new), V(!new)>(cache: map<K, Entry<V>>, key: K, limit: nat)
    requires key in cache || |cache| < limit
    ensures Kept(cache, cache, key, limit)
  {
    assert (cache - {key}).Keys == cache.Keys - {key};
  }

  lemma KeptAfterRoom<K(!new), V(!new)>(cache: map<K, Entry<V>>, left: map<K, Entry<V>>, key: K, limit: nat)
    requires key !in cache && |cache| <= limit && EvictsOldest(cache, left, key, limit)
    requires forall k :: k in left ==> k in cache && left[k] == cache[k]
    requires |cache| < limit ==> left == cache
    requires |cache| >= limit ==> |left| == limit - 1
    ensures Kept(cache, left, key, limit)
  {
    assert left - {key} == left;
  }

  lemma KeptAfterUse<K(!new), V(!new)>(before: map<K, Entry<V>>, left: map<K, Entry<V>>, key: K, e: Entry<V>, limit: nat)
    requires Kept(before, left, key, limit)
    ensures Kept(before, left[key := e], key, limit)
  {
    assert left[key := e] - {key} == left - {key};
    UseEvicts(before, left, key, e, limit);
  }

  class MetricCache<V(==, !new)> {
    var cache: map<MetricKey, Entry<V>>
    const limit: nat
    const keep: nat

    ghost var clock: nat
    ghost var log: set<Computed<MetricKey, V>>

    constructor (limit: nat, keep: nat)
      ensures Valid() && this.limit == limit && this.keep == keep
    {
      this.limit, this.keep, cache, clock, log := limit, keep, map[], 0, {};
    }

    ghost predicate Valid()
      reads this
    {
      Healthy(cache, log, clock, limit, keep)
    }

    /** `metric_cache` at a later time than all calls before; `query` is what the metrics
        service returns for the key, None if it raises. */
    method GetMetric(key: MetricKey, now: nat, query: Option<V>) returns (r: Option<V>)
      requires Valid() && now > clock && limit >= 1
      modifies this
      ensures Valid() && clock == now
      ensures log == if Expired(old(cache), key, now) && query.Some? then old(log) + {Computed(key, now, query.value)} else old(log)
      ensures key in old(cache) && now <= old(cache)[key].cachedTime ==>
                r == Some(old(cache)[key].value) && log == old(log)
                && key in cache && cache[key].cachedTime == old(cache)[key].cachedTime
      ensures key !in old(cache) || now > old(cache)[key].cachedTime ==>
                r == query && (query.Some? ==> key in cache && cache[key].cachedTime == now + keep)
      ensures r.Some? ==> RecentlyComputed(key, r.value, log, now, keep)
      ensures r.Some? ==> key in cache && cache[key].lastAccessed == now && cache[key].value == r.value
      ensures Kept(old(cache), cache, key, limit)
    {
      var stale := Lookup(key, now);
      if !stale {
        Touch(key, now);
        r := Some(cache[key].value);
      } else if query == None {
        MakeRoom(key);
        Wait(now);
        r := None;
      } else {
        MakeRoom(key);
        Store(key, query.value, now);
        r := query;
      }
    }

    /** Whether the value must be computed. */
    method Lookup(key: MetricKey, now: nat) returns (stale: bool)
      ensures stale <==> Expired(cache, key, now)
    {
      stale := false;
      if key in cache {
        if now > cache[key].cachedTime {
          stale := true;
        }
      } else {
        stale := true;
      }
    }

    /** Room is made for a new key. */
    method MakeRoom(key: MetricKey)
      requires Valid() && limit >= 1
      modifies this`cache
      ensures Valid() && (key in cache || |cache| < limit)
      ensures Kept(old(cache), cache, key, limit)
    {
      if key !in cache {
        var left := CheckCacheLimit(cache, limit);
        MakingRoom(cache, left, log, key, clock, limit, keep);
        KeptAfterRoom(cache, left, key, limit);
        cache := left;
      } else {
        KeptItself(cache, key, limit);
      }
    }

    /** The entry is stored as used now. */
    method Use(key: MetricKey, e: Entry<V>)
      requires Valid() && e.lastAccessed > clock && (key in cache || |cache| < limit)
      requires EntryOk(key, e, log, e.lastAccessed, keep) && e.lastAccessed <= e.cachedTime
      modifies this`cache, this`clock
      ensures Valid() && clock == e.lastAccessed && cache == old(cache)[key := e]
      ensures RecentlyComputed(key, e.value, log, e.lastAccessed, keep)
    {
      UseEntry(cache, log, key, e, clock, e.lastAccessed, limit, keep);
      Fresh(key, e, log, e.lastAccessed, keep);
      cache := cache[key := e];
      clock := e.lastAccessed;
    }

    /** An entry that has not expired is used again. */
    method Touch(key: MetricKey, now: nat)
      requires Valid() && now > clock && key in cache && now <= cache[key].cachedTime
      modifies this`cache, this`clock
      ensures Valid() && clock == now && cache == old(cache)[key := old(cache)[key].(lastAccessed := now)]
      ensures RecentlyComputed(key, cache[key].value, log, now, keep)
      ensures Kept(old(cache), cache, key, limit)
    {
      KeptItself(cache, key, limit);
      KeptAfterUse(cache, cache, key, cache[key].(lastAccessed := now), limit);
      Use(key, cache[key].(lastAccessed := now));
    }

    /** A value computed now is stored. */
    method Store(key: MetricKey, value: V, now: nat)
      requires Valid() && now > clock && (key in cache || |cache| < limit)
      modifies this
      ensures Valid() && clock == now && log == old(log) + {Computed(key, now, value)}
      ensures cache == old(cache)[key := Entry(now + keep, value, now)]
      ensures RecentlyComputed(key, value, log, now, keep)
      ensures forall cache0 :: Kept(cache0, old(cache), key, limit) ==> Kept(cache0, cache, key, limit)
    {
      LogGrows(cache, log, Computed(key, now, value), clock, limit, keep);
      log := log + {Computed(key, now, value)};
      forall cache0 | Kept(cache0, cache, key, limit) ensures Kept(cache0, cache[key := Entry(now + keep, value, now)], key, limit) {
        KeptAfterUse(cache0, cache, key, Entry(now + keep, value, now), limit);
      }
      Use(key, Entry(now + keep, value, now));
    }

    /** Only time passes. */
    ghost method Wait(now: nat)
      requires Valid() && now >= clock
      modifies this`clock
      ensures Valid() && clock == now
    {
      Fewer(cache, cache, log, clock, now, limit, keep);
      clock := now;
    }

    /** `on_delete_entity` for this dictionary: exactly the entries of the node go. */
    method OnDeleteEntity(nodeId: string)
      requires Valid()
      modifies this`cache
      ensures Valid() && cache == map k | k in old(cache) && k.nodeId != nodeId :: old(cache)[k]
    {
      var keys := cache.Keys;
      ghost var cache0 := cache;
      while keys != {}
        invariant Valid() && keys <= cache.Keys && cache.Keys <= cache0.Keys
        invariant forall k :: k in cache ==> cache[k] == cache0[k]
        invariant forall k :: k in cache0 && k !in keys ==> (k in cache <==> k.nodeId != nodeId)
        decreases |keys|
      {
        var c :| c in keys;
        keys := keys - {c};
        if c.nodeId == nodeId {
          Fewer(cache, cache - {c}, log, clock, clock, limit, keep);
          cache := cache - {c};
        }
      }
      assert forall k :: k in cache0 ==> k !in keys;
    }
  }

  // ---------------------------------------------------------------- get_top_entities

  datatype Row = Row(score: int, id: string)

  /** The key of a top list: node, its type, metric and the list's type. */
  datatype TopKey = TopKey(nodeId: string, nodeType: string, metric: string, topType: string)

  type TopLists = map<TopKey, Entry<seq<Row>>>
  type TopLog = set<Computed<TopKey, seq<Row>>>

  ghost predicate NoEmptyList(top: TopLists) {
    forall k :: k in top ==> top[k].value != []
  }

  predicate OnlyOf(rows: seq<Row>, ids: seq<string>) {
    forall i :: 0 <= i < |rows| ==> rows[i].id in ids
  }

  /** The list must be queried: it is not stored, it has expired, or it names an entity that
      is not among the given ones. */
  predicate Outdated(top: TopLists, key: TopKey, ids: seq<string>, now: nat) {
    key in top ==> now > top[key].cachedTime || !OnlyOf(top[key].value, ids)
  }

  /** The stored list may be returned: its time has not passed, and all its entities are
      among the given ones. */
  predicate Current(top: TopLists, key: TopKey, ids: seq<string>, now: nat) {
    && key in top && now <= top[key].cachedTime
    && forall i :: 0 <= i < |top[key].value| ==> top[key].value[i].id in ids
  }

  lemma CurrentMeaning(top: TopLists, key: TopKey, ids: seq<string>, now: nat)
    ensures Current(top, key, ids, now) <==> !Outdated(top, key, ids, now)
  {
  }

  function LogAfter(top: TopLists, log: TopLog, key: TopKey, ids: seq<string>, now: nat, query: Option<seq<Row>>): TopLog {
    if Outdated(top, key, ids, now) && query.Some? then log + {Computed(key, now, query.value)} else log
  }

  /** The rows whose entity is not among the given ones. */
  method DiffList(rows: seq<Row>, ids: seq<string>) returns (diff: seq<string>)
    ensures diff == [] <==> OnlyOf(rows, ids)
  {
    diff := [];
    for i := 0 to |rows|
      invariant diff == [] <==> OnlyOf(rows[..i], ids)
    {
      assert rows[..i + 1] == rows[..i] + [rows[i]];
      if rows[i].id !in ids {
        diff := diff + [rows[i].id];
        assert rows[..i + 1][i].id !in ids;
      }
    }
    assert rows[..|rows|] == rows;
  }

  method IsOutdated(top: TopLists, key: TopKey, ids: seq<string>, now: nat) returns (status: bool)
    ensures status <==> Outdated(top, key, ids, now)
  {
    status := false;
    if key in top {
      var diff := DiffList(top[key].value, ids);
      if now > top[key].cachedTime || |diff| > 0 {
        status := true;
      }
    } else {
      status := true;
    }
  }

  /** Of the other lists at most one goes, and only if the cache was full. */
  ghost predicate OneGone(before: TopLists, after: TopLists, key: TopKey, limit: nat) {
    forall i, j :: i in before && i !in after && j in before && j !in after && i != key && j != key ==> i == j && |before| == limit
  }

  lemma StoredList(top: TopLists, left: TopLists, key: TopKey, data: seq<Row>, before: nat, now: nat, limit: nat, keep: nat, log: TopLog)
    requires Healthy(top, log, before, limit, keep) && DropsOldest(top, left) && before < now && limit >= 1
    requires |top| < limit ==> left == top
    requires |top| >= limit ==> |left| == limit - 1
    ensures var after := left[key := Entry(now + keep, data, now)];
            Healthy(after, log + {Computed(key, now, data)}, now, limit, keep) && EvictsOldest(top, after, key, limit)
  {
    MakingRoom(top, left, log, key, before, limit, keep);
    AddedEntry(left, key, data, before, now, limit, keep, log);
    UseEvicts(top, left, key, Entry(now + keep, data, now), limit);
  }

  lemma AddedEntry(left: TopLists, key: TopKey, data: seq<Row>, before: nat, now: nat, limit: nat, keep: nat, log: TopLog)
    requires Healthy(left, log, before, limit, keep) && before < now && |left| < limit
    ensures Healthy(left[key := Entry(now + keep, data, now)], log + {Computed(key, now, data)}, now, limit, keep)
  {
    var computed := Computed(key, now, data);
    LogGrows(left, log, computed, before, limit, keep);
    UseEntry(left, log + {computed}, key, Entry(now + keep, data, now), before, now, limit, keep);
  }

  lemma StoredOneGone(top: TopLists, left: TopLists, key: TopKey, e: Entry<seq<Row>>, limit: nat)
    requires |top| <= limit && (|top| < limit ==> left == top)
    requires |top| >= limit ==> |left| == limit - 1
    requires forall k :: k in left ==> k in top
    ensures OneGone(top, left[key := e], key, limit)
  {
    var after := left[key := e];
    forall i, j | i in top && i !in after && j in top && j !in after && i != key && j != key ensures i == j && |top| == limit {
      if i != j {
        TwoGone(left.Keys, top.Keys, i, j);
      }
    }
  }

  lemma TwoGone(left: set<TopKey>, top: set<TopKey>, i: TopKey, j: TopKey)
    requires left <= top && i in top && j in top && i !in left && j !in left && i != j
    ensures |left| + 2 <= |top|
  {
    SubsetSize(left + {i, j}, top);
    assert |left + {i, j}| == |left| + 2 by { assert left + {i, j} == left + {i} + {j}; }
  }

  /** A queried list is stored; room is made even if the key has an entry, which may itself
      be the oldest one. */
  method StoreList(top: TopLists, key: TopKey, data: seq<Row>, ghost before: nat, now: nat, limit: nat, keep: nat, ghost log: TopLog)
    returns (after: TopLists)
    requires Healthy(top, log, before, limit, keep) && before < now && limit >= 1
    ensures data == [] ==> after == top[key := Entry(now + keep, data, now)]
    ensures data != [] ==>
      && Healthy(after, log + {Computed(key, now, data)}, now, limit, keep)
      && EvictsOldest(top, after, key, limit) && OneGone(top, after, key, limit)
    ensures key in after && after[key] == Entry(now + keep, data, now)
    ensures forall k :: k in after && k != key ==> k in top && after[k] == top[k]
  {
    var left := top;
    if |data| > 0 {
      left := CheckCacheLimit(top, limit);
      StoredList(top, left, key, data, before, now, limit, keep, log);
      StoredOneGone(top, left, key, Entry(now + keep, data, now), limit);
    }
    after := left[key := Entry(now + keep, data, now)];
  }

  /** The end of `get_top_entities`: without entities the stored list becomes empty, and an
      empty list does not stay stored. */
  method Deliver(lists: TopLists, key: TopKey, ids: seq<string>) returns (left: TopLists, rows: seq<Row>)
    requires key in lists
    ensures ids == [] || lists[key].value == [] ==> rows == [] && left == lists - {key}
    ensures ids != [] && lists[key].value != [] ==> rows == lists[key].value && left == lists
  {
    left := lists;
    if |ids| == 0 && key in left {
      left := left[key := left[key].(value := [])];
    }
    rows := left[key].value;
    if |rows| == 0 {
      left := left - {key};
    }
  }

  lemma Computing(key: TopKey, rows: seq<Row>, log: TopLog, now: nat, keep: nat)
    requires Computed(key, now, rows) in log
    ensures RecentlyComputed(key, rows, log, now, keep)
  {
  }

  /** What a call leaves of the user's lists: healthy ones, none of them empty, the list of
      the key as returned, the others as they were or, if they were oldest, gone. */
  ghost predicate Left(top: TopLists, after: TopLists, key: TopKey, rows: seq<Row>, now: nat, log: TopLog, limit: nat, keep: nat) {
    && Healthy(after, log, now, limit, keep) && NoEmptyList(after)
    && (key in after <==> rows != [])
    && (key in after ==> after[key].value == rows && after[key].lastAccessed == now)
    && (forall k :: k in after && k != key ==> k in top && after[k] == top[k])
    && EvictsOldest(top, after, key, limit) && OneGone(top, after, key, limit)
  }

  lemma LeftWithout(top: TopLists, key: TopKey, log: TopLog, c: Computed<TopKey, seq<Row>>, before: nat, now: nat, limit: nat, keep: nat)
    requires Healthy(top, log, before, limit, keep) && NoEmptyList(top) && before <= now
    ensures Left(top, top - {key}, key, [], now, log + {c}, limit, keep)
  {
    Fewer(top, top - {key}, log, before, now, limit, keep);
    LogGrows(top - {key}, log, c, now, limit, keep);
  }

  /** A list that must be queried. */
  method Requery(top: TopLists, key: TopKey, ids: seq<string>, ghost before: nat, now: nat, data: seq<Row>,
                 limit: nat, keep: nat, ghost log: TopLog)
    returns (after: TopLists, rows: seq<Row>)
    requires Healthy(top, log, before, limit, keep) && NoEmptyList(top) && before < now && limit >= 1
    requires OnlyOf(data, ids)
    ensures rows == data && Left(top, after, key, rows, now, log + {Computed(key, now, data)}, limit, keep)
  {
    var stored := StoreList(top, key, data, before, now, limit, keep, log);
    after, rows := Deliver(stored, key, ids);
    if data == [] {
      assert after == top - {key};
      LeftWithout(top, key, log, Computed(key, now, data), before, now, limit, keep);
    } else {
      assert data[0].id in ids;
      LeftWith(top, stored, key, data, now, log + {Computed(key, now, data)}, limit, keep);
    }
  }

  lemma LeftWith(top: TopLists, stored: TopLists, key: TopKey, data: seq<Row>, now: nat, log: TopLog, limit: nat, keep: nat)
    requires Healthy(stored, log, now, limit, keep) && EvictsOldest(top, stored, key, limit)
    requires OneGone(top, stored, key, limit) && NoEmptyList(top)
    requires data != [] && key in stored && stored[key] == Entry(now + keep, data, now)
    requires forall k :: k in stored && k != key ==> k in top && stored[k] == top[k]
    ensures Left(top, stored, key, data, now, log, limit, keep)
  {
  }

  /** A list that is up to date. */
  method Reuse(top: TopLists, key: TopKey, ids: seq<string>, ghost before: nat, now: nat, limit: nat, keep: nat, ghost log: TopLog)
    returns (after: TopLists, rows: seq<Row>)
    requires Healthy(top, log, before, limit, keep) && NoEmptyList(top) && before < now && limit >= 1
    requires key in top && !Outdated(top, key, ids, now)
    ensures rows == top[key].value && Left(top, after, key, rows, now, log, limit, keep)
    ensures RecentlyComputed(key, rows, log, now, keep)
  {
    var e := top[key].(lastAccessed := now);
    var row := top[key].value[0];
    assert EntryOk(key, top[key], log, before, keep);
    UseEntry(top, log, key, e, before, now, limit, keep);
    Fresh(key, e, log, now, keep);
    assert row.id in ids;
    after, rows := Deliver(top[key := e], key, ids);
  }

  /** What `get_top_entities` returns and leaves: None if it had to query and that failed. */
  ghost predicate Answered(top: TopLists, after: TopLists, key: TopKey, ids: seq<string>, now: nat, query: Option<seq<Row>>,
                           r: Option<seq<Row>>, log: TopLog, limit: nat, keep: nat) {
    && (Outdated(top, key, ids, now) ==> r == query)
    && (!Outdated(top, key, ids, now) ==> key in top && r == Some(top[key].value))
    && (r.Some? ==>
          && OnlyOf(r.value, ids) && RecentlyComputed(key, r.value, log, now, keep)
          && Left(top, after, key, r.value, now, log, limit, keep))
    && (r == None ==> after == top && NoEmptyList(after) && Healthy(after, log, now, limit, keep))
  }

  /** `get_top_entities` on the lists of one user, which were last used at `before`; `query`
      is None if the query raises. */
  method TopOfUser(top: TopLists, key: TopKey, ids: seq<string>, ghost before: nat, now: nat, query: Option<seq<Row>>,
                   limit: nat, keep: nat, ghost log: TopLog)
    returns (after: TopLists, r: Option<seq<Row>>)
    requires Healthy(top, log, before, limit, keep) && NoEmptyList(top) && before < now && limit >= 1
    requires query.Some? ==> OnlyOf(query.value, ids)
    ensures Answered(top, after, key, ids, now, query, r, LogAfter(top, log, key, ids, now, query), limit, keep)
  {
    var status := IsOutdated(top, key, ids, now);
    if !status {
      var rows;
      after, rows := Reuse(top, key, ids, before, now, limit, keep, log);
      r := Some(rows);
    } else if query == None {
      Fewer(top, top, log, before, now, limit, keep);
      after, r := top, None;
    } else {
      var rows;
      after, rows := Requery(top, key, ids, before, now, query.value, limit, keep, log);
      Computing(key, rows, log + {Computed(key, now, query.value)}, now, keep);
      r := Some(rows);
    }
  }

  class TopCache {
    var userCache: map<string, TopLists>
    const limit: nat
    const keep: nat

    ghost var clock: nat
    ghost var log: map<string, TopLog>

    constructor (limit: nat, keep: nat)
      ensures Valid() && this.limit == limit && this.keep == keep
    {
      this.limit, this.keep, userCache, clock, log := limit, keep, map[], 0, map[];
    }

    ghost predicate Valid()
      reads this
    {
      userCache.Keys <= log.Keys && forall u :: u in userCache ==> UserOk(userCache[u], log[u], clock)
    }

    ghost predicate UserOk(lists: TopLists, computed: TopLog, now: nat) {
      NoEmptyList(lists) && Healthy(lists, computed, now, limit, keep)
    }

    /** `get_top_value` */
    method GetTopValue(user: string) returns (lists: TopLists)
      requires Valid()
      modifies this`userCache, this`log
      ensures Valid() && user in userCache && lists == userCache[user]
      ensures lists == old(ListsOf(user))
      ensures userCache == old(userCache)[user := lists]
      ensures user in log && log[user] == old(LogOf(user)) && clock == old(clock)
    {
      if user !in userCache {
        log := log[user := {}];
        userCache := userCache[user := map[]];
      }
      lists := userCache[user];
    }

    /** The lists of the user are replaced at a later time. */
    method SetLists(user: string, lists: TopLists, ghost computed: TopLog, ghost now: nat)
      requires Valid() && now >= clock && UserOk(lists, computed, now)
      modifies this
      ensures Valid() && clock == now
      ensures userCache == old(userCache)[user := lists] && log == old(log)[user := computed]
      ensures ListsOf(user) == lists && LogOf(user) == computed
    {
      forall u | u in userCache ensures UserOk(userCache[u], log[u], now) {
        Fewer(userCache[u], userCache[u], log[u], clock, now, limit, keep);
      }
      userCache, log, clock := userCache[user := lists], log[user := computed], now;
    }

    function ListsOf(user: string): TopLists
      reads this
    {
      if user in userCache then userCache[user] else map[]
    }

    ghost function LogOf(user: string): TopLog
      reads this
    {
      if user in userCache && user in log then log[user] else {}
    }

    /** `get_top_entities` at a later time than all calls before; `query` is what the metrics
        service returns, None if it raises. */
    method GetTopEntities(user: string, key: TopKey, ids: seq<string>, now: nat, query: Option<seq<Row>>)
      returns (r: Option<seq<Row>>)
      requires Valid() && now > clock && limit >= 1
      requires query.Some? ==> OnlyOf(query.value, ids)
      modifies this
      ensures Valid() && clock == now
      ensures LogOf(user) == LogAfter(old(ListsOf(user)), old(LogOf(user)), key, ids, now, query)
      ensures Answered(old(ListsOf(user)), ListsOf(user), key, ids, now, query, r, LogOf(user), limit, keep)
      ensures userCache == old(userCache)[user := ListsOf(user)]
      ensures Current(old(ListsOf(user)), key, ids, now) ==> r == Some(old(ListsOf(user))[key].value) && LogOf(user) == old(LogOf(user))
      ensures !Current(old(ListsOf(user)), key, ids, now) ==> r == query
    {
      CurrentMeaning(ListsOf(user), key, ids, now);
      ghost var computed, users0 := LogOf(user), userCache;
      var lists := GetTopValue(user);
      r := Answer(user, lists, key, ids, now, query, computed);
      Overwrite(users0, user, lists, ListsOf(user));
    }

    lemma Overwrite(users: map<string, TopLists>, user: string, a: TopLists, b: TopLists)
      ensures users[user := a][user := b] == users[user := b]
    {
    }

    /** The rest of `get_top_entities`. */
    method Answer(user: string, lists: TopLists, key: TopKey, ids: seq<string>, now: nat, query: Option<seq<Row>>,
                  ghost computed: TopLog)
      returns (r: Option<seq<Row>>)
      requires Valid() && now > clock && limit >= 1
      requires user in userCache && user in log && lists == userCache[user] && computed == log[user]
      requires query.Some? ==> OnlyOf(query.value, ids)
      modifies this
      ensures Valid() && clock == now
      ensures LogOf(user) == LogAfter(lists, computed, key, ids, now, query)
      ensures Answered(lists, ListsOf(user), key, ids, now, query, r, LogOf(user), limit, keep)
      ensures userCache == old(userCache)[user := ListsOf(user)]
    {
      ghost var logged := LogAfter(lists, computed, key, ids, now, query);
      assert UserOk(lists, computed, clock);
      var after;
      after, r := TopOfUser(lists, key, ids, clock, now, query, limit, keep, computed);
      AnsweredOk(lists, after, key, ids, now, query, r, logged);
      SetLists(user, after, logged, now);
    }

    lemma AnsweredOk(top: TopLists, after: TopLists, key: TopKey, ids: seq<string>, now: nat, query: Option<seq<Row>>,
                     r: Option<seq<Row>>, computed: TopLog)
      requires Answered(top, after, key, ids, now, query, r, computed, limit, keep)
      ensures UserOk(after, computed, now)
    {
    }

    lemma FewerOk(lists: TopLists, left: TopLists, computed: TopLog, now: nat)
      requires UserOk(lists, computed, now) && forall k :: k in left ==> k in lists && left[k] == lists[k]
      ensures UserOk(left, computed, now)
    {
      Fewer(lists, left, computed, now, now, limit, keep);
    }

    /** The lists of one type of one user. */
    method RemoveLists(user: string, listType: string)
      requires Valid() && user in userCache
      modifies this
      ensures Valid() && clock == old(clock)
      ensures userCache == old(userCache)[user := WithoutType(old(userCache)[user], listType)]
    {
      var left := DeleteType(userCache[user], listType);
      assert UserOk(userCache[user], log[user], clock);
      FewerOk(userCache[user], left, log[user], clock);
      SetLists(user, left, log[user], clock);
    }

    /** `remove_top_details`: of every user exactly the lists of one type go. */
    method RemoveTopDetails(entType: string)
      requires Valid()
      modifies this
      ensures Valid() && clock == old(clock)
      ensures userCache == map u | u in old(userCache) :: WithoutType(old(userCache)[u], ListType(entType))
      ensures entType == "MANAGED_NODE" ==>
                userCache == map u | u in old(userCache) :: WithoutType(old(userCache)[u], "topNservers")
      ensures entType == "DOMAIN" ==>
                userCache == map u | u in old(userCache) :: WithoutType(old(userCache)[u], "topNvms")
    {
      var listType := ListType(entType);
      var users := userCache.Keys;
      ghost var users0 := userCache;
      while users != {}
        invariant Valid() && clock == old(clock)
        invariant PartlyRemoved(users0, userCache, users, listType)
        decreases |users|
      {
        var user :| user in users;
        RemoveOne(users0, userCache, users, user, listType);
        RemoveLists(user, listType);
        users := users - {user};
      }
      AllRemoved(users0, userCache, listType);
    }
  }

  /** All users but the given ones have lost the lists of the type. */
  ghost predicate PartlyRemoved(users0: map<string, TopLists>, cache: map<string, TopLists>, users: set<string>, listType: string) {
    && users <= cache.Keys == users0.Keys
    && forall u :: u in cache ==> cache[u] == if u in users then users0[u] else WithoutType(users0[u], listType)
  }

  lemma RemoveOne(users0: map<string, TopLists>, cache: map<string, TopLists>, users: set<string>, user: string, listType: string)
    requires PartlyRemoved(users0, cache, users, listType) && user in users
    ensures PartlyRemoved(users0, cache[user := WithoutType(cache[user], listType)], users - {user}, listType)
  {
  }

  lemma AllRemoved(users0: map<string, TopLists>, cache: map<string, TopLists>, listType: string)
    requires PartlyRemoved(users0, cache, {}, listType)
    ensures cache == map u | u in users0 :: WithoutType(users0[u], listType)
  {
  }

  /** The type of the lists that name entities of a type. */
  function ListType(entType: string): string {
    if entType == "MANAGED_NODE" then "topNservers" else if entType == "DOMAIN" then "topNvms" else ""
  }

  function WithoutType(lists: TopLists, listType: string): TopLists {
    map k | k in lists && k.topType != listType :: lists[k]
  }

  method DeleteType(lists: TopLists, listType: string) returns (left: TopLists)
    ensures left == WithoutType(lists, listType)
  {
    left := lists;
    var keys := lists.Keys;
    while keys != {}
      invariant keys <= left.Keys <= lists.Keys
      invariant forall k :: k in left ==> left[k] == lists[k]
      invariant forall k :: k in lists && k !in keys ==> (k in left <==> k.topType != listType)
      decreases |keys|
    {
      var u :| u in keys;
      keys := keys - {u};
      if u.topType == listType {
        left := left - {u};
      }
    }
    assert forall k :: k in lists ==> k !in keys;
  }
}
