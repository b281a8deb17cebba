/** The start order of services: the rotating queue of ServiceCentral._order in core.py. */
module ServiceOrder {
  import opened Prelude

  datatype Service = Service(id: int, enabled: bool)

  /** (dependent, parent) */
  type Dependency = (int, int)

  datatype ServiceError = CycleDetected

  // ---------------------------------------------------------------- what an order is

  ghost predicate UniqueIds(services: seq<Service>) {
    forall i, j :: 0 <= i < j < |services| ==> services[i].id != services[j].id
  }

  /** Each service once. */
  ghost predicate SameServices(a: seq<Service>, b: seq<Service>) {
    multiset(a) == multiset(b)
  }

  /** Nothing comes before one of its parents. Self-dependencies do not matter. */
  ghost predicate ParentsFirst(order: seq<Service>, deps: seq<Dependency>) {
    forall i, j :: 0 <= i < j < |order| ==> (order[i].id, order[j].id) !in deps
  }

  ghost predicate IsStartOrder(order: seq<Service>, services: seq<Service>, deps: seq<Dependency>) {
    SameServices(order, services) && ParentsFirst(order, deps)
  }

  /** The service needs another of the given ones. */
  ghost predicate Blocked(svc: Service, services: seq<Service>, deps: seq<Dependency>) {
    exists other :: other in services && other.id != svc.id && (svc.id, other.id) in deps
  }

  // ---------------------------------------------------------------- the helpers

  method IsIndependent(svc: Service, services: seq<Service>, deps: seq<Dependency>) returns (r: bool)
    ensures r <==> forall other :: other in services ==> (svc.id, other.id) !in deps
  {
    for i := 0 to |services|
      invariant forall j :: 0 <= j < i ==> (svc.id, services[j].id) !in deps
    {
      if (svc.id, services[i].id) in deps {
        return false;
      }
    }
    return true;
  }

  /** The dependencies on other parents. */
  function WithoutParent(deps: seq<Dependency>, id: int): (r: seq<Dependency>)
    ensures forall d :: d in r <==> d in deps && d.1 != id
  {
    if deps == [] then []
    else
      var front := WithoutParent(deps[..|deps| - 1], id);
      if deps[|deps| - 1].1 == id then front else front + [deps[|deps| - 1]]
  }

  /** `l.remove(x)`: the first occurrence goes. */
  function RemoveFirst(l: seq<Dependency>, x: Dependency): seq<Dependency>
    requires x in l
  {
    if l[0] == x then l[1..] else [l[0]] + RemoveFirst(l[1..], x)
  }

  lemma {:induction false} RemoveAfter(a: seq<Dependency>, x: Dependency, b: seq<Dependency>)
    requires x !in a
    ensures RemoveFirst(a + [x] + b, x) == a + b
  {
    var l := a + [x] + b;
    if a == [] {
      assert l[1..] == b;
    } else {
      assert l[1..] == a[1..] + [x] + b;
      RemoveAfter(a[1..], x, b);
    }
  }

  /** Iterates over a copy while removing from the list itself. */
  method RemoveDeps(svc: Service, dependencies: PyList<Dependency>)
    modifies dependencies
    ensures dependencies.items == WithoutParent(old(dependencies.items), svc.id)
  {
    var copy := dependencies.items;
    for i := 0 to |copy|
      invariant dependencies.items == PartlyRemoved(copy, i, svc.id)
    {
      RemoveStep(copy, i, svc.id);
      var d := copy[i];
      if d.1 == svc.id {
        dependencies.items := RemoveFirst(dependencies.items, d);
      }
    }
    assert copy[..|copy|] == copy;
  }

  /** The list after the first i entries of the copy have been looked at. */
  ghost function PartlyRemoved(copy: seq<Dependency>, i: nat, id: int): seq<Dependency>
    requires i <= |copy|
  {
    WithoutParent(copy[..i], id) + copy[i..]
  }

  lemma RemoveStep(copy: seq<Dependency>, i: nat, id: int)
    requires i < |copy|
    ensures copy[i].1 == id ==>
              copy[i] in PartlyRemoved(copy, i, id)
              && RemoveFirst(PartlyRemoved(copy, i, id), copy[i]) == PartlyRemoved(copy, i + 1, id)
    ensures copy[i].1 != id ==> PartlyRemoved(copy, i, id) == PartlyRemoved(copy, i + 1, id)
  {
    var kept, d, rest := WithoutParent(copy[..i], id), copy[i], copy[i + 1..];
    assert copy[i..] == [d] + rest;
    assert copy[..i + 1][..i] == copy[..i];
    assert PartlyRemoved(copy, i, id) == kept + [d] + rest;
    if d.1 == id {
      RemoveAfter(kept, d, rest);
    }
  }

  // ---------------------------------------------------------------- the rotating queue

  /** Services that block each other cannot be ordered: the first of them in any order
      would come before one of its parents. */
  lemma MutuallyBlocked(remaining: seq<Service>, services: seq<Service>, deps: seq<Dependency>, order: seq<Service>)
    requires remaining != [] && forall s :: s in remaining ==> s in services && Blocked(s, remaining, deps)
    ensures !IsStartOrder(order, services, deps)
  {
    if IsStartOrder(order, services, deps) {
      SameMembers(order, services);
      assert remaining[0] in services && remaining[0] in order;
      var w :| 0 <= w < |order| && order[w] == remaining[0];
      var first := FirstAmong(order, remaining, w);
    }
  }

  lemma SameMembers(a: seq<Service>, b: seq<Service>)
    requires multiset(a) == multiset(b)
    ensures forall s :: s in a <==> s in b
  {
    forall s ensures s in a <==> s in b {
      assert s in a <==> s in multiset(a);
      assert s in b <==> s in multiset(b);
    }
  }

  lemma FirstAmong(order: seq<Service>, some: seq<Service>, w: nat) returns (i: nat)
    requires w < |order| && order[w] in some
    ensures i < |order| && order[i] in some && forall j :: 0 <= j < i ==> order[j] !in some
  {
    i := 0;
    while order[i] !in some
      invariant i <= w && forall j :: 0 <= j < i ==> order[j] !in some
      decreases w - i
    {
      i := i + 1;
    }
  }

  /** What holds whenever the queue is about to be served: `ordered` and `queue` are the
      original services, nothing left is a parent of something ordered, and of the
      dependencies only those on ordered parents are gone. */
  ghost predicate Progress(ordered: seq<Service>, queue: seq<Service>, deps: seq<Dependency>,
                           services: seq<Service>, deps0: seq<Dependency>) {
    && multiset(ordered + queue) == multiset(services) && UniqueIds(ordered + queue)
    && ParentsFirst(ordered, deps0)
    && (forall i, o :: 0 <= i < |ordered| && o in queue ==> (ordered[i].id, o.id) !in deps0)
    && (forall d :: d in deps ==> d in deps0)
    && (forall d :: d in deps0 && (forall i :: 0 <= i < |ordered| ==> ordered[i].id != d.1) ==> d in deps)
  }

  /** The last `count` services of the queue were found blocked since the last success. */
  ghost predicate Rotated(queue: seq<Service>, count: int, deps0: seq<Dependency>) {
    && 0 <= count <= |queue|
    && forall i :: |queue| - count <= i < |queue| ==> Blocked(queue[i], queue, deps0)
  }

  lemma RotateStep(ordered: seq<Service>, queue: seq<Service>, count: int, deps: seq<Dependency>,
                   services: seq<Service>, deps0: seq<Dependency>)
    requires queue != [] && count < |queue| && Rotated(queue, count, deps0)
    requires Progress(ordered, queue, deps, services, deps0)
    requires exists other :: other in queue[1..] && (queue[0].id, other.id) in deps
    ensures Progress(ordered, queue[1..] + [queue[0]], deps, services, deps0)
    ensures Rotated(queue[1..] + [queue[0]], count + 1, deps0)
  {
    var svc, rest := queue[0], queue[1..];
    var next := rest + [svc];
    assert queue == [svc] + rest;
    assert multiset(ordered + next) == multiset(ordered + queue);
    RotateIds(ordered, queue);
    forall i | |next| - (count + 1) <= i < |next| ensures Blocked(next[i], next, deps0) {
      if i == |next| - 1 {
        var k :| 0 <= k < |rest| && (svc.id, rest[k].id) in deps;
        assert (ordered + queue)[|ordered| + k + 1] == rest[k] && (ordered + queue)[|ordered|] == svc;
        assert rest[k] in next;
      } else {
        assert next[i] == queue[i + 1];
        var other :| other in queue && other.id != queue[i + 1].id && (queue[i + 1].id, other.id) in deps0;
        assert other in next;
      }
    }
  }

  lemma RotateIds(ordered: seq<Service>, queue: seq<Service>)
    requires queue != [] && UniqueIds(ordered + queue)
    ensures UniqueIds(ordered + (queue[1..] + [queue[0]]))
  {
    var all, next := ordered + queue, ordered + (queue[1..] + [queue[0]]);
    var n, m := |ordered|, |all| - 1;
    forall i, j | 0 <= i < j < |next| ensures next[i].id != next[j].id {
      var a, b := if i < n then i else i + 1, if j < n then j else if j < m then j + 1 else n;
      assert next[i] == all[a] && next[j] == all[b];
    }
  }

  lemma TakeStep(ordered: seq<Service>, queue: seq<Service>, deps: seq<Dependency>,
                 services: seq<Service>, deps0: seq<Dependency>)
    requires queue != [] && Progress(ordered, queue, deps, services, deps0)
    requires forall other :: other in queue[1..] ==> (queue[0].id, other.id) !in deps
    ensures Progress(ordered + [queue[0]], queue[1..], WithoutParent(deps, queue[0].id), services, deps0)
  {
    var svc, rest := queue[0], queue[1..];
    var taken := ordered + [svc];
    assert taken + rest == ordered + queue;
    assert svc in queue;
    forall o | o in rest ensures (svc.id, o.id) !in deps0 {
      var k :| 0 <= k < |rest| && rest[k] == o;
      if (svc.id, o.id) in deps0 {
        forall i | 0 <= i < |ordered| ensures ordered[i].id != o.id {
          assert (ordered + queue)[i] == ordered[i] && (ordered + queue)[|ordered| + k + 1] == o;
        }
      }
    }
    forall d | d in deps0 && forall i :: 0 <= i < |taken| ==> taken[i].id != d.1
      ensures d in WithoutParent(deps, svc.id)
    {
      assert taken[|ordered|] == svc;
      forall i | 0 <= i < |ordered| ensures ordered[i].id != d.1 {
        assert taken[i] == ordered[i];
      }
    }
  }

  /** A full turn without success: there is no start order. */
  lemma AllBlocked(ordered: seq<Service>, queue: seq<Service>, deps: seq<Dependency>,
                   services: seq<Service>, deps0: seq<Dependency>)
    requires queue != [] && Progress(ordered, queue, deps, services, deps0) && Rotated(queue, |queue|, deps0)
    ensures forall order :: !IsStartOrder(order, services, deps0)
  {
    forall s | s in queue ensures s in services && Blocked(s, queue, deps0) {
      assert s in multiset(ordered + queue);
    }
    forall order ensures !IsStartOrder(order, services, deps0) {
      MutuallyBlocked(queue, services, deps0, order);
    }
  }

  /** `_order`: a start order of the services, or an exception exactly when there is none.
      Both lists are consumed. */
  method Order(services: PyList<Service>, dependencies: PyList<Dependency>)
    returns (r: Result<seq<Service>, ServiceError>)
    requires UniqueIds(services.items)
    modifies services, dependencies
    ensures r.Ok? ==> IsStartOrder(r.value, old(services.items), old(dependencies.items)) && services.items == []
    ensures r.Raised? <==> forall order :: !IsStartOrder(order, old(services.items), old(dependencies.items))
  {
    ghost var all, deps0 := services.items, dependencies.items;
    var count := 0;
    var ordered: seq<Service> := [];
    assert ordered + services.items == all;
    while |services.items| != 0
      invariant Progress(ordered, services.items, dependencies.items, all, deps0)
      invariant Rotated(services.items, count, deps0)
      decreases |services.items|, |services.items| - count
    {
      count := count + 1;
      if count > |services.items| {
        AllBlocked(ordered, services.items, dependencies.items, all, deps0);
        return Raised(CycleDetected);
      }
      ghost var queue := services.items;
      ghost var deps := dependencies.items;
      var svc := services.items[0];
      services.items := services.items[1..];
      var independent := IsIndependent(svc, services.items, dependencies.items);
      if independent {
        TakeStep(ordered, queue, deps, all, deps0);
        RemoveDeps(svc, dependencies);
        count := 0;
        ordered := ordered + [svc];
      } else {
        RotateStep(ordered, queue, count - 1, deps, all, deps0);
        services.items := services.items + [svc];
      }
    }
    assert ordered + services.items == ordered;
    assert IsStartOrder(ordered, all, deps0);
    return Ok(ordered);
  }

  // ---------------------------------------------------------------- starting

  /** The enabled services, in order. */
  function Enabled(order: seq<Service>): seq<Service> {
    if order == [] then []
    else
      var front := Enabled(order[..|order| - 1]);
      if order[|order| - 1].enabled then front + [order[|order| - 1]] else front
  }

  lemma {:induction false} EnabledMembers(order: seq<Service>)
    ensures forall s :: s in Enabled(order) <==> s in order && s.enabled
  {
    if order != [] {
      var n := |order| - 1;
      EnabledMembers(order[..n]);
      assert order == order[..n] + [order[n]];
    }
  }

  lemma {:induction false} EnabledParentsFirst(order: seq<Service>, deps: seq<Dependency>)
    requires ParentsFirst(order, deps)
    ensures ParentsFirst(Enabled(order), deps)
  {
    if order != [] {
      var n := |order| - 1;
      var front := Enabled(order[..n]);
      EnabledParentsFirst(order[..n], deps);
      EnabledMembers(order[..n]);
      forall i | 0 <= i < |front| ensures (front[i].id, order[n].id) !in deps {
        assert front[i] in order[..n];
      }
    }
  }

  /** The start-up in `run`: when a service is started, its enabled parents already are. */
  method StartAll(services: PyList<Service>, dependencies: PyList<Dependency>)
    returns (r: Result<seq<Service>, ServiceError>)
    requires UniqueIds(services.items)
    modifies services, dependencies
    ensures r.Ok? ==> multiset(r.value) <= multiset(old(services.items)) && ParentsFirst(r.value, old(dependencies.items))
    ensures r.Ok? ==> forall s :: s in r.value <==> s in old(services.items) && s.enabled
  {
    var order := Order(services, dependencies);
    if order.Raised? {
      return Raised(order.error);
    }
    var started: seq<Service> := [];
    for i := 0 to |order.value|
      invariant started == Enabled(order.value[..i])
      invariant multiset(started) <= multiset(order.value[..i])
    {
      assert order.value[..i + 1][..i] == order.value[..i];
      assert order.value[..i + 1] == order.value[..i] + [order.value[i]];
      if order.value[i].enabled {
        started := started + [order.value[i]];
      }
    }
    assert order.value[..|order.value|] == order.value;
    EnabledParentsFirst(order.value, old(dependencies.items));
    EnabledMembers(order.value);
    SameMembers(order.value, old(services.items));
    return Ok(started);
  }
}
