/** The time-leased ports of NodeCache.py. Each method runs under the class lock, so calls
    follow one another; the clock may advance at every reading. */
module PortLease {
  import opened Prelude

  /** A port handed out by get_port. */
  datatype Grant = Grant(host: string, port: int, time: int)

  /** The dictionary of one host: port to time of lease. The key None is entered when no
      port was free. */
  type Leases = map<Option<int>, int>

  ghost predicate IsFree(used: seq<Option<int>>, start: int, end: int, port: int) {
    start <= port < end && Some(port) !in used
  }

  /** The lowest free port, None if there is none. */
  ghost predicate IsLowestFree(r: Option<int>, used: seq<Option<int>>, start: int, end: int) {
    match r
    case None => forall p :: !IsFree(used, start, end, p)
    case Some(port) => IsFree(used, start, end, port) && forall p :: start <= p < port ==> Some(p) in used
  }

  /** The grants of one port on one host are further apart than the interval. */
  ghost predicate Spaced(grants: seq<Grant>, interval: int) {
    forall i, j :: 0 <= i < j < |grants| && grants[i].host == grants[j].host && grants[i].port == grants[j].port ==>
      grants[j].time > grants[i].time + interval
  }

  ghost function LeasesOf(cache: map<string, Leases>, host: string): Leases {
    if host in cache then cache[host] else map[]
  }

  /** A grant is still entered as a lease, or older than the interval. */
  ghost predicate Remembered(cache: map<string, Leases>, g: Grant, now: int, interval: int) {
    var leases := LeasesOf(cache, g.host);
    g.time + interval < now || (Some(g.port) in leases && leases[Some(g.port)] >= g.time)
  }

  ghost predicate Consistent(cache: map<string, Leases>, grants: seq<Grant>, now: int, interval: int) {
    && Spaced(grants, interval)
    && forall g :: g in grants ==> g.time <= now && Remembered(cache, g, now, interval)
  }

  class NodeCache {
    var cache: map<string, Leases>
    var clock: int

    /** node_ports_cache_clear_time */
    const interval: int

    ghost var grants: seq<Grant>

    constructor (interval: int)
      ensures Valid() && cache == map[] && grants == [] && this.interval == interval
    {
      cache, clock, this.interval, grants := map[], 0, interval, [];
    }

    ghost predicate Valid()
      reads this
    {
      Consistent(cache, grants, clock, interval)
    }

    /** datetime.utcnow() */
    method UtcNow() returns (t: int)
      modifies this`clock
      ensures t == clock >= old(clock)
    {
      var elapsed: int := *;
      if elapsed > 0 {
        clock := clock + elapsed;
      }
      t := clock;
    }

    /** `get_cache_val(node_id, 'ports')`; the host's dictionary is created on the way. */
    method GetCacheVal(host: string) returns (leases: Leases)
      modifies this`cache
      ensures leases == LeasesOf(old(cache), host)
      ensures forall h :: LeasesOf(cache, h) == LeasesOf(old(cache), h)
    {
      if host !in cache {
        cache := cache[host := map[]];
      }
      leases := cache[host];
    }

    /** `clear_ports_cache`: deletes what is older than the interval when it is looked at. */
    method ClearPortsCache(host: string)
      modifies this`cache, this`clock
      ensures clock >= old(clock)
      ensures forall h :: h != host ==> LeasesOf(cache, h) == LeasesOf(old(cache), h)
      ensures Cleared(LeasesOf(old(cache), host), LeasesOf(cache, host), old(clock), clock, interval)
    {
      var leases := GetCacheVal(host);
      ghost var all := leases;
      var items := leases.Keys;
      while items != {}
        invariant clock >= old(clock)
        invariant items <= all.Keys
        invariant forall h :: LeasesOf(cache, h) == LeasesOf(old(cache), h)
        invariant forall p :: p in leases ==> p in all && leases[p] == all[p]
        invariant forall p :: p in leases && p !in items ==> all[p] >= old(clock) - interval
        invariant forall p :: p in all && p !in leases ==> all[p] < clock - interval
        invariant forall p :: p in items ==> p in leases
        decreases |items|
      {
        var port :| port in items;
        items := items - {port};
        var now := UtcNow();
        if leases[port] < now - interval {
          leases := leases - {port};
        }
      }
      cache := cache[host := leases];
    }

    /** `get_free_port` */
    method GetFreePort(used: seq<Option<int>>, start: int, end: int) returns (r: Option<int>)
      ensures IsLowestFree(r, used, start, end)
    {
      var port := start;
      while port < end
        invariant forall p :: start <= p < port ==> Some(p) in used
        decreases end - port
      {
        if Some(port) in used {
          port := port + 1;
          continue;
        }
        return Some(port);
      }
      return None;
    }

    /** `set_cache_val(node_id, 'ports', val)` */
    method SetCacheVal(host: string, port: Option<int>)
      modifies this`cache, this`clock
      ensures clock >= old(clock)
      ensures LeasesOf(cache, host) == LeasesOf(old(cache), host)[port := clock]
      ensures forall h :: h != host ==> LeasesOf(cache, h) == LeasesOf(old(cache), h)
    {
      var leases := GetCacheVal(host);
      var now := UtcNow();
      cache := cache[host := leases[port := now]];
    }

    /** `get_port`: the lowest port of the range that is neither in use nor leased, where the
        leases are those that the clearing left; None exactly when there is none. A grant of
        the same port on the same host is further back than the interval, and the leases of
        other hosts stay as they are. `used_ports` grows by the leased ports. */
    method GetPort(host: string, usedPorts: PyList<Option<int>>, start: int, end: int)
      returns (r: Option<int>, ghost leases: Leases)
      requires Valid()
      modifies this, usedPorts
      ensures Valid() && clock >= old(clock)
      ensures Cleared(LeasesOf(old(cache), host), leases, old(clock), clock, interval)
      ensures |usedPorts.items| >= |old(usedPorts.items)| && usedPorts.items[..|old(usedPorts.items)|] == old(usedPorts.items)
      ensures forall p :: p in usedPorts.items <==> p in old(usedPorts.items) || p in leases
      ensures IsLowestFree(r, usedPorts.items, start, end)
      ensures grants == if r.Some? then old(grants) + [Grant(host, r.value, clock)] else old(grants)
      ensures LeasesOf(cache, host) == leases[r := clock]
      ensures forall h :: h != host ==> LeasesOf(cache, h) == LeasesOf(old(cache), h)
    {
      ClearPortsCache(host);
      StillConsistent(old(cache), cache, host, grants, old(clock), clock, interval);
      var inCache := GetCacheVal(host);
      leases := inCache;
      ghost var used0 := usedPorts.items;
      var keys := inCache.Keys;
      while keys != {}
        invariant keys <= inCache.Keys
        invariant |usedPorts.items| >= |used0| && usedPorts.items[..|used0|] == used0
        invariant forall p :: p in usedPorts.items <==> p in used0 || (p in inCache && p !in keys)
        modifies usedPorts
        decreases |keys|
      {
        var key :| key in keys;
        keys := keys - {key};
        usedPorts.items := usedPorts.items + [key];
      }
      r := GetFreePort(usedPorts.items, start, end);
      ghost var cleared, now, before := cache, clock, grants;
      SetCacheVal(host, r);
      if r.Some? {
        grants := grants + [Grant(host, r.value, clock)];
      }
      LeaseGranted(cleared, cache, host, r, before, grants, now, clock, interval);
    }
  }

  /** Entries are deleted, never changed: all that were older than the interval at the start,
      and only such as were so at the end. */
  ghost predicate Cleared(all: Leases, left: Leases, start: int, end: int, interval: int) {
    && (forall p :: p in left ==> p in all && left[p] == all[p] && all[p] >= start - interval)
    && (forall p :: p in all && p !in left ==> all[p] < end - interval)
  }

  lemma StillConsistent(cache0: map<string, Leases>, cache: map<string, Leases>, host: string, grants: seq<Grant>,
                        start: int, end: int, interval: int)
    requires Consistent(cache0, grants, start, interval) && start <= end
    requires forall h :: h != host ==> LeasesOf(cache, h) == LeasesOf(cache0, h)
    requires Cleared(LeasesOf(cache0, host), LeasesOf(cache, host), start, end, interval)
    ensures Consistent(cache, grants, end, interval)
  {
    forall g | g in grants ensures g.time <= end && Remembered(cache, g, end, interval) {
      assert Remembered(cache0, g, start, interval);
    }
  }

  lemma LeaseGranted(cache0: map<string, Leases>, cache: map<string, Leases>, host: string, r: Option<int>,
                     grants0: seq<Grant>, grants: seq<Grant>, start: int, end: int, interval: int)
    requires Consistent(cache0, grants0, start, interval) && start <= end
    requires forall h :: h != host ==> LeasesOf(cache, h) == LeasesOf(cache0, h)
    requires LeasesOf(cache, host) == LeasesOf(cache0, host)[r := end]
    requires r.Some? ==> r !in LeasesOf(cache0, host)
    requires grants == if r.Some? then grants0 + [Grant(host, r.value, end)] else grants0
    ensures Consistent(cache, grants, end, interval)
  {
    forall g | g in grants0 ensures g.time <= end && Remembered(cache, g, end, interval) {
      assert Remembered(cache0, g, start, interval);
    }
    forall i | 0 <= i < |grants0| && r.Some? && grants0[i].host == host && grants0[i].port == r.value
      ensures end > grants0[i].time + interval
    {
      assert Remembered(cache0, grants0[i], start, interval);
    }
  }
}
