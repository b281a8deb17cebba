/** Handing out managed nodes, one server pool after the other: get_sp_node_ids of
    AvailabilityWorker.py and CollectMetricsWorker.py with the bookkeeping of
    WorkManager.py around it. */
module PoolSweep {
  import opened Prelude

  /** Entities are known by text ids. */
  type Id = string

  /** A server pool: its child entities and the targets of all its relations. */
  datatype Pool = Pool(id: Id, children: set<Id>, related: set<Id>)

  /** The entity_tasks row of a node for this kind of worker; None is a null column. */
  datatype TaskRow = TaskRow(workerId: Option<int>, startTime: Option<int>)

  /** What the queries see: the pools in name order, the managed nodes, the availability
      rows, the task rows, the start of this cycle and the limit of nodes per batch. */
  datatype Db = Db(pools: seq<Pool>, managed: set<Id>, avail: map<Id, int>, tasks: map<Id, TaskRow>,
                   cycleStart: int, nodeLimit: nat)

  /** Not claimed by a worker and not started since the cycle began. */
  predicate Eligible(db: Db, n: Id) {
    n in db.tasks ==>
      var row := db.tasks[n];
      row.workerId == None && (row.startTime == None || row.startTime.value < db.cycleStart)
  }

  /** The rows of the query for one pool, before ordering and limit. */
  function Candidates(db: Db, p: Pool): set<Id> {
    set n | n in p.related && n in db.avail && Eligible(db, n)
  }

  /** The rows of the query for nodes still to be served in this cycle. */
  function Pending(db: Db): set<Id> {
    if db.nodeLimit == 0 then {} else set n | n in db.managed && Eligible(db, n)
  }

  /** The pool yields nodes when it is swept. */
  predicate Yields(db: Db, p: Pool) {
    p.children != {} && Candidates(db, p) != {} && db.nodeLimit > 0
  }

  predicate SomePoolYields(db: Db) {
    exists i :: 0 <= i < |db.pools| && Yields(db, db.pools[i])
  }

  /** The sweep comes to an end. */
  predicate SweepEnds(db: Db) {
    Pending(db) == {} || SomePoolYields(db)
  }

  ghost predicate UniquePools(db: Db) {
    forall i, j :: 0 <= i < j < |db.pools| ==> db.pools[i].id != db.pools[j].id
  }

  /** Some pool can yield the node. */
  ghost predicate Coverable(db: Db, n: Id) {
    n in db.avail && exists i :: 0 <= i < |db.pools| && n in db.pools[i].related && db.pools[i].children != {}
  }

  /** If some pool can yield every pending node, the sweep ends. */
  lemma CoveredSweepEnds(db: Db)
    requires forall n :: n in Pending(db) ==> Coverable(db, n)
    ensures SweepEnds(db)
  {
    if n :| n in Pending(db) {
      var i :| 0 <= i < |db.pools| && n in db.pools[i].related && db.pools[i].children != {};
      assert n in Candidates(db, db.pools[i]);
      assert Yields(db, db.pools[i]);
    }
  }

  /** `order_by(name).first()` among the pools not yet in the list. */
  function NextPool(pools: seq<Pool>, spList: seq<Id>): (r: Option<Pool>)
    ensures r == None ==> forall i :: 0 <= i < |pools| ==> pools[i].id in spList
    ensures r.Some? ==> exists i :: 0 <= i < |pools| && r.value == pools[i] && pools[i].id !in spList
                                    && forall j :: 0 <= j < i ==> pools[j].id in spList
  {
    if pools == [] then None
    else if pools[0].id !in spList then Some(pools[0])
    else
      var r := NextPool(pools[1..], spList);
      assert r.Some? ==> exists i :: 1 <= i < |pools| && r.value == pools[i] && pools[i].id !in spList
                                     && forall j :: 0 <= j < i ==> pools[j].id in spList by {
        if r.Some? {
          var i :| 0 <= i < |pools| - 1 && r.value == pools[1..][i] && pools[1..][i].id !in spList
                   && forall j :: 0 <= j < i ==> pools[1..][j].id in spList;
          assert forall j :: 1 <= j < i + 1 ==> pools[j] == pools[1..][j - 1];
          assert r.value == pools[i + 1];
        }
      }
      r
  }

  // ---------------------------------------------------------------- a sweep that never ends

  /** sp_list at the head of the loop after k rounds without nodes, None once the loop has
      been left. */
  function SweepAfter(db: Db, spList: seq<Id>, k: nat): Option<seq<Id>>
    decreases k
  {
    if k == 0 then Some(spList)
    else
      match NextPool(db.pools, spList)
      case None => if Pending(db) == {} then None else SweepAfter(db, [], k - 1)
      case Some(p) => if Yields(db, p) then None else SweepAfter(db, spList + [p.id], k - 1)
  }

  /** If a node is still to be served but no pool yields any, the loop is never left. */
  lemma {:induction false} SweepNeverEnds(db: Db, spList: seq<Id>, k: nat)
    requires !SweepEnds(db)
    ensures SweepAfter(db, spList, k).Some?
    decreases k
  {
    if k > 0 {
      match NextPool(db.pools, spList)
      case None => SweepNeverEnds(db, [], k - 1);
      case Some(p) =>
        var i :| 0 <= i < |db.pools| && db.pools[i] == p;
        assert !Yields(db, db.pools[i]);
        SweepNeverEnds(db, spList + [p.id], k - 1);
    }
  }

  // ---------------------------------------------------------------- the queries

  /** The n nodes of lowest availability, in that order. */
  ghost predicate IsFirstBy(avail: map<Id, int>, from: set<Id>, l: seq<Id>) {
    && (forall x :: x in from ==> x in avail)
    && (forall i :: 0 <= i < |l| ==> l[i] in from)
    && (forall i, j :: 0 <= i < j < |l| ==> l[i] != l[j] && avail[l[i]] <= avail[l[j]])
    && (forall i, x :: 0 <= i < |l| && x in from && x !in l ==> avail[l[i]] <= avail[x])
  }

  /** Some node of a set has the lowest availability. */
  lemma {:induction false} LeastExists(avail: map<Id, int>, s: set<Id>)
    requires s != {} && s <= avail.Keys
    ensures exists n :: n in s && forall y :: y in s ==> avail[n] <= avail[y]
    decreases |s|
  {
    var x :| x in s;
    var rest := s - {x};
    if rest != {} {
      assert |rest| < |s|;
      LeastExists(avail, rest);
      var m :| m in rest && forall y :: y in rest ==> avail[m] <= avail[y];
      var n := if avail[m] < avail[x] then m else x;
      assert forall y :: y in s ==> y == x || y in rest;
      assert n in s && forall y :: y in s ==> avail[n] <= avail[y];
    } else {
      assert forall y :: y in s && y != x ==> y in rest;
    }
  }

  method OrderedQuery(avail: map<Id, int>, from: set<Id>, limit: nat) returns (l: seq<Id>)
    requires forall x :: x in from ==> x in avail
    ensures IsFirstBy(avail, from, l)
    ensures |l| == if |from| < limit then |from| else limit
  {
    l := [];
    var rest := from;
    while rest != {} && |l| < limit
      invariant rest <= from && |l| <= limit && |rest| + |l| == |from|
      invariant forall x :: x in from <==> x in rest || x in l
      invariant forall x :: x in rest ==> x !in l
      invariant IsFirstBy(avail, from, l)
      decreases |rest|
    {
      assert forall x :: x in rest ==> x in avail.Keys;
      LeastExists(avail, rest);
      var n :| n in rest && forall x :: x in rest ==> avail[n] <= avail[x];
      l := l + [n];
      rest := rest - {n};
    }
    if rest == {} {
      assert |rest| == 0;
    }
  }

  // ---------------------------------------------------------------- the worker

  /** A batch: the pool it was taken from and the nodes. */
  datatype Batch = Batch(spId: Option<Id>, nodes: seq<Id>)

  /** What a sweep returns. */
  ghost predicate IsBatch(db: Db, b: Batch) {
    && (b.nodes == [] ==> Pending(db) == {})
    && (b.nodes != [] ==>
         exists i :: 0 <= i < |db.pools| && b.spId == Some(db.pools[i].id) && IsPoolBatch(db, db.pools[i], b.nodes))
  }

  /** Eligible targets of the pool, as many as the limit allows, least available first. */
  ghost predicate IsPoolBatch(db: Db, p: Pool, nodes: seq<Id>) {
    && p.children != {} && IsFirstBy(db.avail, Candidates(db, p), nodes)
    && |nodes| == if |Candidates(db, p)| < db.nodeLimit then |Candidates(db, p)| else db.nodeLimit
  }

  /** The node of the row may be taken: nobody owns it, and it was not started in the cycle. */
  predicate Unowned(tasks: map<Id, TaskRow>, cycleStart: int, n: Id) {
    n in tasks ==> tasks[n].workerId == None && (tasks[n].startTime == None || tasks[n].startTime.value < cycleStart)
  }

  /** What a batch means in the rows of the tables: its nodes are targets of the pool with an
      availability row, of no owner and not started in the cycle; a node of that kind is left
      out only if the limit is reached, by nodes of no higher availability. */
  ghost predicate TakenFrom(db: Db, p: Pool, nodes: seq<Id>) {
    && p.children != {} && |nodes| <= db.nodeLimit
    && (forall i :: 0 <= i < |nodes| ==>
          nodes[i] in p.related && nodes[i] in db.avail && Unowned(db.tasks, db.cycleStart, nodes[i]))
    && (forall i, j :: 0 <= i < j < |nodes| ==> nodes[i] != nodes[j] && db.avail[nodes[i]] <= db.avail[nodes[j]])
    && (forall x :: x in p.related && x in db.avail && Unowned(db.tasks, db.cycleStart, x) && x !in nodes ==>
          |nodes| == db.nodeLimit && forall i :: 0 <= i < |nodes| ==> db.avail[nodes[i]] <= db.avail[x])
  }

  lemma PoolBatchMeaning(db: Db, p: Pool, nodes: seq<Id>)
    requires IsPoolBatch(db, p, nodes)
    ensures TakenFrom(db, p, nodes)
  {
    forall x | x in p.related && x in db.avail && Unowned(db.tasks, db.cycleStart, x) && x !in nodes
      ensures |nodes| == db.nodeLimit && forall i :: 0 <= i < |nodes| ==> db.avail[nodes[i]] <= db.avail[x]
    {
      assert x in Candidates(db, p);
      AllTaken(Candidates(db, p), nodes, x);
    }
  }

  /** Distinct members as many as the set has are all of them. */
  lemma AllTaken(from: set<Id>, l: seq<Id>, x: Id)
    requires x in from && x !in l && (forall i :: 0 <= i < |l| ==> l[i] in from)
    requires forall i, j :: 0 <= i < j < |l| ==> l[i] != l[j]
    ensures |l| < |from|
  {
    Distinct(l);
    Smaller((set n | n in l) + {x}, from);
  }

  lemma {:induction false} Distinct(l: seq<Id>)
    requires forall i, j :: 0 <= i < j < |l| ==> l[i] != l[j]
    ensures |set n | n in l| == |l|
  {
    if l != [] {
      var front, last := l[..|l| - 1], l[|l| - 1];
      Distinct(front);
      assert (set n | n in l) == (set n | n in front) + {last};
    }
  }

  lemma BatchIsUnowned(db: Db, b: Batch)
    requires IsBatch(db, b)
    ensures forall n :: n in b.nodes ==> Unowned(db.tasks, db.cycleStart, n)
  {
  }

  /** An empty batch: every managed node has an owner or was started in the cycle. */
  lemma EmptyBatchMeaning(db: Db)
    requires Pending(db) == {} && db.nodeLimit > 0
    ensures forall n :: n in db.managed ==>
              n in db.tasks && (db.tasks[n].workerId.Some?
                                || (db.tasks[n].startTime.Some? && db.tasks[n].startTime.value >= db.cycleStart))
  {
    forall n | n in db.managed
      ensures n in db.tasks && (db.tasks[n].workerId.Some?
                                || (db.tasks[n].startTime.Some? && db.tasks[n].startTime.value >= db.cycleStart))
    {
      assert n !in Pending(db);
    }
  }

  /** The pool is the first in order that yields nodes among those not yet swept; if it was
      swept before, no other one yields, and it is the first of all. */
  ghost predicate FirstToYield(db: Db, i: nat, spList: seq<Id>)
    requires i < |db.pools|
  {
    && (forall j :: 0 <= j < i && db.pools[j].id !in spList ==> !Yields(db, db.pools[j]))
    && (db.pools[i].id in spList ==>
          forall j :: 0 <= j < |db.pools| && (j < i || db.pools[j].id !in spList) ==> !Yields(db, db.pools[j]))
  }

  ghost predicate InCycle(db: Db, handed: set<Id>, taskIds: set<int>, tasks0: map<Id, TaskRow>) {
    && (forall n :: n in handed ==>
         n in db.tasks && db.tasks[n].startTime.Some? && db.tasks[n].startTime.value >= db.cycleStart)
    && (forall n :: n !in handed ==> (Eligible(db, n) <==> Eligible(db.(tasks := tasks0), n)))
    && (forall n :: n in db.tasks && n !in handed && db.tasks[n].workerId.Some? ==> db.tasks[n].workerId.value !in taskIds)
  }

  lemma ClaimKeepsCycle(db: Db, handed: set<Id>, taskIds: set<int>, tasks0: map<Id, TaskRow>,
                        nodes: seq<Id>, taskId: int, now: int)
    requires InCycle(db, handed, taskIds, tasks0) && now >= db.cycleStart
    requires forall n :: n in db.tasks ==> db.tasks[n].workerId != Some(taskId)
    ensures InCycle(db.(tasks := Claimed(db.tasks, nodes, taskId, now)), handed + (set n | n in nodes),
                    taskIds + {taskId}, tasks0)
  {
    var t := Claimed(db.tasks, nodes, taskId, now);
    forall n | n !in handed && n !in nodes
      ensures Eligible(db.(tasks := t), n) <==> Eligible(db.(tasks := tasks0), n)
    {
      assert n in t <==> n in db.tasks;
    }
  }

  lemma ReleaseKeepsCycle(db: Db, handed: set<Id>, taskIds: set<int>, tasks0: map<Id, TaskRow>, taskId: int)
    requires InCycle(db, handed, taskIds, tasks0) && taskId in taskIds
    ensures InCycle(db.(tasks := Released(db.tasks, taskId)), handed, taskIds, tasks0)
  {
    var t := Released(db.tasks, taskId);
    forall n | n !in handed ensures Eligible(db.(tasks := t), n) <==> Eligible(db.(tasks := tasks0), n) {
      assert n in db.tasks ==> t[n] == db.tasks[n];
      assert Eligible(db.(tasks := t), n) <==> Eligible(db, n);
    }
  }

  lemma NothingLeft(db: Db, handed: set<Id>, taskIds: set<int>, tasks0: map<Id, TaskRow>)
    requires InCycle(db, handed, taskIds, tasks0) && Pending(db) == {} && db.nodeLimit > 0
    ensures forall n :: n in db.managed && Eligible(db.(tasks := tasks0), n) ==> n in handed
  {
    forall n | n in db.managed && Eligible(db.(tasks := tasks0), n) ensures n in handed {
      assert n in db.managed && Eligible(db, n) ==> n in Pending(db);
    }
  }

  // ---------------------------------------------------------------- whole cycles

  /** What happens in a cycle: a batch is handed out and claimed, or a task finishes. */
  datatype Event = Handed(batch: Batch, taskId: int, now: int) | Done(taskId: int)

  /** The tables, the nodes handed out and the tasks they went to. */
  datatype Cycle = Cycle(db: Db, handed: set<Id>, taskIds: set<int>)

  ghost predicate CanHappen(c: Cycle, e: Event) {
    match e
    case Handed(b, taskId, now) =>
      && SweepEnds(c.db) && IsBatch(c.db, b) && now >= c.db.cycleStart
      && forall n :: n in c.db.tasks ==> c.db.tasks[n].workerId != Some(taskId)
    case Done(taskId) => taskId in c.taskIds
  }

  function Happen(c: Cycle, e: Event): Cycle {
    match e
    case Handed(b, taskId, now) =>
      Cycle(c.db.(tasks := Claimed(c.db.tasks, b.nodes, taskId, now)), c.handed + (set n | n in b.nodes), c.taskIds + {taskId})
    case Done(taskId) => c.(db := c.db.(tasks := Released(c.db.tasks, taskId)))
  }

  ghost predicate CanRun(c: Cycle, events: seq<Event>)
    decreases |events|
  {
    events == [] || (CanHappen(c, events[0]) && CanRun(Happen(c, events[0]), events[1..]))
  }

  function AfterRun(c: Cycle, events: seq<Event>): Cycle
    decreases |events|
  {
    if events == [] then c else AfterRun(Happen(c, events[0]), events[1..])
  }

  /** Some course of the cycle runs into a sweep that never ends. */
  ghost predicate CanGetStuck(c: Cycle) {
    exists events :: CanRun(c, events) && !SweepEnds(AfterRun(c, events).db)
  }

  lemma {:induction false} RunKeepsCycle(c: Cycle, events: seq<Event>, tasks0: map<Id, TaskRow>)
    requires CanRun(c, events) && InCycle(c.db, c.handed, c.taskIds, tasks0)
    ensures var d := AfterRun(c, events);
            && d.db == c.db.(tasks := d.db.tasks)
            && InCycle(d.db, d.handed, d.taskIds, tasks0)
    decreases |events|
  {
    if events != [] {
      match events[0] {
        case Handed(b, taskId, now) => ClaimKeepsCycle(c.db, c.handed, c.taskIds, tasks0, b.nodes, taskId, now);
        case Done(taskId) => ReleaseKeepsCycle(c.db, c.handed, c.taskIds, tasks0, taskId);
      }
      RunKeepsCycle(Happen(c, events[0]), events[1..], tasks0);
    }
  }

  /** Nobody but its owner gives up a node: a claim does not touch an owned row. */
  lemma OwnerStays(c: Cycle, e: Event, n: Id, w: int)
    requires CanHappen(c, e) && n in c.db.tasks && c.db.tasks[n].workerId == Some(w) && e != Done(w)
    ensures e.Handed? ==> n !in e.batch.nodes
    ensures n in Happen(c, e).db.tasks && Happen(c, e).db.tasks[n].workerId == Some(w)
  {
    if e.Handed? {
      BatchIsUnowned(c.db, e.batch);
    }
  }

  /** In every course of events: before a node that has an owner is handed out, also one that
      had it when the cycle began, its owner has finished. */
  lemma {:induction false} OwnerFinishesFirst(c: Cycle, events: seq<Event>, n: Id, w: int, j: nat)
    requires CanRun(c, events) && n in c.db.tasks && c.db.tasks[n].workerId == Some(w)
    requires j < |events| && events[j].Handed? && n in events[j].batch.nodes
    ensures exists k :: 0 <= k < j && events[k] == Done(w)
    decreases j
  {
    if events[0] != Done(w) {
      OwnerStays(c, events[0], n, w);
      OwnerFinishesFirst(Happen(c, events[0]), events[1..], n, w, j - 1);
      var k :| 0 <= k < j - 1 && events[1..][k] == Done(w);
      assert events[k + 1] == Done(w);
    }
  }

  /** No node is in two unfinished tasks: between two batches with the node the first task
      has finished. */
  lemma {:induction false} OneUnfinishedTask(c: Cycle, events: seq<Event>, n: Id, i: nat, j: nat)
    requires CanRun(c, events) && i < j < |events| && events[i].Handed? && events[j].Handed?
    requires n in events[i].batch.nodes && n in events[j].batch.nodes
    ensures exists k :: i < k < j && events[k] == Done(events[i].taskId)
    decreases i
  {
    var d, rest := Happen(c, events[0]), events[1..];
    if i > 0 {
      OneUnfinishedTask(d, rest, n, i - 1, j - 1);
      var k :| i - 1 < k < j - 1 && rest[k] == Done(rest[i - 1].taskId);
      assert events[k + 1] == Done(events[i].taskId);
    } else {
      OwnerFinishesFirst(d, rest, n, events[0].taskId, j - 1);
      var k :| 0 <= k < j - 1 && rest[k] == Done(events[0].taskId);
      assert events[k + 1] == Done(events[0].taskId);
    }
  }

  /** In an endless sweep a node is pending that was eligible at the start and that no pool
      can yield. */
  lemma StuckNode(db: Db, handed: set<Id>, taskIds: set<int>, tasks0: map<Id, TaskRow>) returns (n: Id)
    requires InCycle(db, handed, taskIds, tasks0) && !SweepEnds(db)
    ensures n in db.managed && Eligible(db.(tasks := tasks0), n) && !Coverable(db, n) && db.nodeLimit > 0
  {
    if forall x :: x in Pending(db) ==> Coverable(db, x) {
      CoveredSweepEnds(db);
    }
    n :| n in Pending(db) && !Coverable(db, n);
  }

  /** The nodes that could still be handed out. */
  function Open(db: Db): set<Id> {
    set n | n in db.avail && Eligible(db, n)
  }

  lemma {:induction false} FreshTask(tasks: map<Id, TaskRow>) returns (t: int)
    ensures forall n :: n in tasks && tasks[n].workerId.Some? ==> tasks[n].workerId.value < t
    decreases |tasks|
  {
    if tasks.Keys == {} {
      t := 0;
    } else {
      var n :| n in tasks.Keys;
      var rest := tasks - {n};
      assert rest.Keys == tasks.Keys - {n};
      t := FreshTask(rest);
      assert forall x :: x in tasks && x != n ==> x in rest && rest[x] == tasks[x];
      if tasks[n].workerId.Some? && tasks[n].workerId.value >= t {
        t := tasks[n].workerId.value + 1;
      }
    }
  }

  /** A batch of the pool exists. */
  lemma {:induction false} BatchExists(avail: map<Id, int>, from: set<Id>, limit: nat) returns (l: seq<Id>)
    requires forall x :: x in from ==> x in avail
    ensures IsFirstBy(avail, from, l)
    ensures |l| == if |from| < limit then |from| else limit
    decreases |from|
  {
    if from == {} || limit == 0 {
      return [];
    }
    assert from <= avail.Keys;
    LeastExists(avail, from);
    var n :| n in from && forall y :: y in from ==> avail[n] <= avail[y];
    var rest := BatchExists(avail, from - {n}, limit - 1);
    l := [n] + rest;
    FirstOfAll(avail, from, n, rest);
  }

  lemma FirstOfAll(avail: map<Id, int>, from: set<Id>, n: Id, rest: seq<Id>)
    requires n in from && n in avail && IsFirstBy(avail, from - {n}, rest)
    requires forall y :: y in from ==> y in avail && avail[n] <= avail[y]
    ensures IsFirstBy(avail, from, [n] + rest)
  {
    var l := [n] + rest;
    forall i, x | 0 <= i < |l| && x in from && x !in l ensures avail[l[i]] <= avail[x] {
      assert x !in rest && x in from - {n};
    }
    forall i, j | 0 <= i < j < |l| ensures l[i] != l[j] && avail[l[i]] <= avail[l[j]] {
      assert rest[j - 1] in from - {n};
    }
  }

  /** While some pool yields, a batch can be handed out; the node that no pool can yield
      stays eligible, and fewer nodes are left. */
  lemma OneMoreBatch(c: Cycle, n: Id) returns (e: Event)
    requires SomePoolYields(c.db) && Eligible(c.db, n) && !Coverable(c.db, n)
    ensures CanHappen(c, e) && e.Handed? && Eligible(Happen(c, e).db, n)
    ensures |Open(Happen(c, e).db)| < |Open(c.db)|
  {
    var i :| 0 <= i < |c.db.pools| && Yields(c.db, c.db.pools[i]);
    var p := c.db.pools[i];
    var l := BatchExists(c.db.avail, Candidates(c.db, p), c.db.nodeLimit);
    var t := FreshTask(c.db.tasks);
    e := Handed(Batch(Some(p.id), l), t, c.db.cycleStart);
    assert IsPoolBatch(c.db, p, l);
    assert l != [];
    ClaimShrinks(c.db, p, l, t);
    assert n !in Candidates(c.db, p);
  }

  lemma ClaimShrinks(db: Db, p: Pool, l: seq<Id>, t: int)
    requires l != [] && forall i :: 0 <= i < |l| ==> l[i] in Candidates(db, p)
    ensures |Open(db.(tasks := Claimed(db.tasks, l, t, db.cycleStart)))| < |Open(db)|
    ensures forall n :: n !in l ==> (Eligible(db.(tasks := Claimed(db.tasks, l, t, db.cycleStart)), n) <==> Eligible(db, n))
  {
    var after := db.(tasks := Claimed(db.tasks, l, t, db.cycleStart));
    forall n ensures n !in l ==> (Eligible(after, n) <==> Eligible(db, n)) {
    }
    assert l[0] in Open(db) && l[0] !in Open(after);
    assert Open(after) <= Open(db) - {l[0]};
    Smaller(Open(after), Open(db) - {l[0]});
  }

  lemma Smaller(a: set<Id>, b: set<Id>)
    requires a <= b
    ensures |a| <= |b|
  {
    assert |b| == |a| + |b - a| by { assert b == a + (b - a); }
  }

  /** Handing out all that can be handed out leads into the endless sweep. */
  lemma {:induction false} RunsDry(c: Cycle, n: Id) returns (events: seq<Event>)
    requires c.db.nodeLimit > 0 && n in c.db.managed && Eligible(c.db, n) && !Coverable(c.db, n)
    ensures CanRun(c, events) && !SweepEnds(AfterRun(c, events).db)
    decreases |Open(c.db)|
  {
    if SomePoolYields(c.db) {
      var e := OneMoreBatch(c, n);
      var rest := RunsDry(Happen(c, e), n);
      events := [e] + rest;
      assert events[1..] == rest;
    } else {
      events := [];
      assert n in Pending(c.db);
    }
  }

  /** A cycle can run into the endless sweep exactly if, at its start, a managed node is
      eligible that no pool can yield. */
  lemma StuckExactly(db: Db)
    ensures CanGetStuck(Cycle(db, {}, {}))
       <==> db.nodeLimit > 0 && exists n :: n in db.managed && Eligible(db, n) && !Coverable(db, n)
  {
    var c := Cycle(db, {}, {});
    if CanGetStuck(c) {
      var events :| CanRun(c, events) && !SweepEnds(AfterRun(c, events).db);
      RunKeepsCycle(c, events, db.tasks);
      var d := AfterRun(c, events);
      var n := StuckNode(d.db, d.handed, d.taskIds, db.tasks);
      assert n in db.managed && Eligible(db, n) && !Coverable(db, n);
    }
    if db.nodeLimit > 0 && exists n :: n in db.managed && Eligible(db, n) && !Coverable(db, n) {
      var n :| n in db.managed && Eligible(db, n) && !Coverable(db, n);
      var events := RunsDry(c, n);
    }
  }

  /** The state of the sweep while nothing was found: the pools swept since the beginning do
      not yield, nor, after the reset, those that were not swept before. */
  ghost predicate SweptSoFar(db: Db, spList0: seq<Id>, spList: seq<Id>, resets: nat) {
    && (resets == 0 ==> forall id :: id in spList0 ==> id in spList)
    && (resets == 1 ==> Pending(db) != {} && forall j :: 0 <= j < |db.pools| && db.pools[j].id !in spList0 ==> !Yields(db, db.pools[j]))
    && (forall j :: 0 <= j < |db.pools| && db.pools[j].id in spList && (resets == 1 || db.pools[j].id !in spList0) ==>
          !Yields(db, db.pools[j]))
  }

  lemma NoneYields(db: Db, spList0: seq<Id>, spList: seq<Id>)
    requires SweptSoFar(db, spList0, spList, 1) && forall i :: 0 <= i < |db.pools| ==> db.pools[i].id in spList
    ensures !SweepEnds(db)
  {
  }

  lemma FirstOfThose(db: Db, spList0: seq<Id>, spList: seq<Id>, resets: nat, at: nat)
    requires resets <= 1 && SweptSoFar(db, spList0, spList, resets) && at < |db.pools| && db.pools[at].id !in spList
    requires forall j :: 0 <= j < at ==> db.pools[j].id in spList
    ensures FirstToYield(db, at, spList0)
  {
  }

  lemma SweptOneMore(db: Db, spList0: seq<Id>, spList: seq<Id>, resets: nat, at: nat)
    requires at < |db.pools| && resets <= 1 && UniquePools(db) && |spList| > 0 && spList[|spList| - 1] == db.pools[at].id
    requires SweptSoFar(db, spList0, spList[..|spList| - 1], resets)
    ensures !Yields(db, db.pools[at]) ==> SweptSoFar(db, spList0, spList, resets)
  {
    forall j | 0 <= j < |db.pools| && db.pools[j].id in spList ensures j == at || db.pools[j].id in spList[..|spList| - 1] {
      if j != at {
        assert db.pools[j].id != db.pools[at].id;
      }
    }
  }

  class Worker {
    const pools: seq<Pool>
    const managed: set<Id>
    const avail: map<Id, int>
    const cycleStart: int
    const nodeLimit: nat
    var tasks: map<Id, TaskRow>
    var spList: seq<Id>

    /** The nodes handed out in this cycle, the tasks they went to, and the task rows at
        its start. */
    ghost var handed: set<Id>
    ghost var taskIds: set<int>
    ghost const tasks0: map<Id, TaskRow>

    constructor (pools: seq<Pool>, managed: set<Id>, avail: map<Id, int>, tasks: map<Id, TaskRow>,
                 cycleStart: int, nodeLimit: nat)
      requires UniquePools(Db(pools, managed, avail, tasks, cycleStart, nodeLimit))
      ensures View() == Db(pools, managed, avail, tasks, cycleStart, nodeLimit)
      ensures Valid() && handed == {} && taskIds == {} && tasks0 == tasks
    {
      this.pools, this.managed, this.avail := pools, managed, avail;
      this.tasks, this.cycleStart, this.nodeLimit := tasks, cycleStart, nodeLimit;
      spList, handed, taskIds, tasks0 := [], {}, {}, tasks;
    }

    function View(): Db
      reads this
    {
      Db(pools, managed, avail, tasks, cycleStart, nodeLimit)
    }

    ghost function InCycleNow(): Cycle
      reads this
    {
      Cycle(View(), handed, taskIds)
    }

    /** What was handed out in this cycle has a row that was started in it; the other
        nodes are as eligible as at its start, and not owned by the tasks of the cycle. */
    ghost predicate Valid()
      reads this
    {
      UniquePools(View()) && InCycle(View(), handed, taskIds, tasks0)
    }

    /** `get_sp_node_ids`: it ends, with at most one reset of sp_list. */
    method GetSpNodeIds() returns (b: Batch, ghost resets: nat)
      requires Valid() && SweepEnds(View())
      modifies this`spList
      ensures IsBatch(View(), b) && resets <= 1
      ensures b.nodes != [] ==> exists i :: 0 <= i < |pools| && b.spId == Some(pools[i].id)
                                            && TakenFrom(View(), pools[i], b.nodes) && FirstToYield(View(), i, old(spList))
                                            && pools[i].id in spList
      ensures b.nodes == [] && nodeLimit > 0 ==>
                forall n :: n in managed ==>
                  n in tasks && (tasks[n].workerId.Some? || (tasks[n].startTime.Some? && tasks[n].startTime.value >= cycleStart))
    {
      var spId: Option<Id> := None;
      var nodes: seq<Id> := [];
      ghost var spList0, at := spList, 0;
      resets := 0;
      while |nodes| == 0
        invariant resets <= 1
        invariant nodes != [] ==> 0 <= at < |pools| && spId == Some(pools[at].id) && pools[at].id in spList
        invariant nodes != [] ==> IsPoolBatch(View(), pools[at], nodes) && FirstToYield(View(), at, spList0)
        invariant nodes == [] ==> SweptSoFar(View(), spList0, spList, resets)
        decreases nodes == [], 1 - resets, |Unswept(pools, spList)|
      {
        var ent := NextPool(pools, spList);
        match ent {
          case None =>
            if Pending(View()) != {} {
              if resets == 1 {
                NoneYields(View(), spList0, spList);
                assert false;
              }
              spList := [];
              resets := 1;
            } else {
              break;
            }
          case Some(p) =>
            UnsweptShrinks(pools, spList, p);
            at :| 0 <= at < |pools| && p == pools[at] && pools[at].id !in spList && forall j :: 0 <= j < at ==> pools[j].id in spList;
            FirstOfThose(View(), spList0, spList, resets, at);
            spList := spList + [p.id];
            if p.children != {} {
              spId := Some(p.id);
              nodes := OrderedQuery(avail, Candidates(View(), p), nodeLimit);
            }
            SweptOneMore(View(), spList0, spList, resets, at);
        }
      }
      b := Batch(spId, nodes);
      if nodes == [] && nodeLimit > 0 {
        EmptyBatchMeaning(View());
      }
      if nodes != [] {
        PoolBatchMeaning(View(), pools[at], nodes);
      }
    }

    /** One round of `do_work`: get a batch and enter it in the task table for a new task. */
    method Dispatch(taskId: int, now: int) returns (b: Batch)
      requires Valid() && SweepEnds(View()) && now >= cycleStart
      requires forall n :: n in tasks ==> tasks[n].workerId != Some(taskId)
      modifies this
      ensures Valid()
      ensures b.nodes == [] && nodeLimit > 0 ==>
                forall n :: n in managed && Eligible(View().(tasks := tasks0), n) ==> n in handed
      ensures IsBatch(old(View()), b)
      ensures forall n :: n in b.nodes ==> n !in old(handed) && Eligible(old(View()), n)
      ensures handed == old(handed) + (set n | n in b.nodes) && taskIds == old(taskIds) + {taskId}
      ensures tasks == Claimed(old(tasks), b.nodes, taskId, now)
      ensures forall n :: n in b.nodes ==> Unowned(old(tasks), cycleStart, n)
      ensures forall n :: n in b.nodes ==> n in tasks && tasks[n].workerId == Some(taskId) && tasks[n].startTime == Some(now)
      ensures forall n :: n !in b.nodes ==> (n in tasks <==> n in old(tasks)) && (n in tasks ==> tasks[n] == old(tasks)[n])
      ensures old(CanHappen(InCycleNow(), Handed(b, taskId, now)))
      ensures InCycleNow() == Happen(old(InCycleNow()), Handed(b, taskId, now))
    {
      ghost var resets;
      b, resets := GetSpNodeIds();
      BatchIsEligible(View(), b);
      BatchIsUnowned(View(), b);
      if b.nodes == [] && nodeLimit > 0 {
        NothingLeft(View(), handed, taskIds, tasks0);
      }
      ClaimKeepsCycle(View(), handed, taskIds, tasks0, b.nodes, taskId, now);
      tasks := Claimed(tasks, b.nodes, taskId, now);
      handed := handed + set n | n in b.nodes;
      taskIds := taskIds + {taskId};
    }

    /** A finished task: its rows lose their owner and keep their start time. */
    method Finish(taskId: int)
      requires Valid() && taskId in taskIds
      modifies this`tasks
      ensures Valid()
      ensures tasks == Released(old(tasks), taskId)
      ensures tasks.Keys == old(tasks).Keys
      ensures forall n :: n in tasks ==> tasks[n].startTime == old(tasks)[n].startTime
      ensures forall n :: n in tasks && old(tasks)[n].workerId == Some(taskId) ==> tasks[n].workerId == None
      ensures forall n :: n in tasks && old(tasks)[n].workerId != Some(taskId) ==> tasks[n].workerId == old(tasks)[n].workerId
      ensures InCycleNow() == Happen(old(InCycleNow()), Done(taskId))
    {
      ReleaseKeepsCycle(View(), handed, taskIds, tasks0, taskId);
      tasks := Released(tasks, taskId);
    }
  }

  /** `make_entity_task_entries` */
  function Claimed(tasks: map<Id, TaskRow>, nodes: seq<Id>, taskId: int, now: int): map<Id, TaskRow> {
    tasks + map n | n in nodes :: TaskRow(Some(taskId), Some(now))
  }

  function Released(tasks: map<Id, TaskRow>, taskId: int): map<Id, TaskRow> {
    map n | n in tasks :: if tasks[n].workerId == Some(taskId) then tasks[n].(workerId := None) else tasks[n]
  }

  lemma BatchIsEligible(db: Db, b: Batch)
    requires IsBatch(db, b)
    ensures forall n :: n in b.nodes ==> Eligible(db, n)
  {
  }

  /** The ids of the pools that are not in the list. */
  function Unswept(pools: seq<Pool>, spList: seq<Id>): set<Id> {
    set i | 0 <= i < |pools| && pools[i].id !in spList :: pools[i].id
  }

  lemma UnsweptShrinks(pools: seq<Pool>, spList: seq<Id>, p: Pool)
    requires p in pools && p.id !in spList
    ensures |Unswept(pools, spList + [p.id])| < |Unswept(pools, spList)|
  {
    assert Unswept(pools, spList + [p.id]) == Unswept(pools, spList) - {p.id};
    assert p.id in Unswept(pools, spList);
  }
}
