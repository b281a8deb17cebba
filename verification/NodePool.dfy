/** The pool of node proxies in NodePool.py: any interleaving of get_node, whose first
    check is made without the lock, with clear_node. */
module NodePool {
  import opened Prelude

  /** Where a thread stands; `node` is the proxy it created or is about to return. */
  datatype Thread =
    | Idle
    | Check(key: int)                            // get_node: the check without the lock
    | Reread(key: int)                           // ... found a node: reads the entry again
    | Create(key: int)
    | Acquire(key: int, node: nat)               // has its own node, asks for the lock
    | Recheck(key: int, node: nat)               // holds the lock
    | ReturnPooled(key: int)                     // holds the lock, about to read and release
    | ClearAcquire(key: int)                     // clear_node
    | ClearCheck(key: int)                       // holds the lock
    | ClearEntry(key: int, node: nat)            // has cleaned the node, about to clear the entry
    | ClearRelease(key: int)

  /** A node proxy: the key it was made for and the thread that made it. */
  datatype Made = Made(key: int, maker: nat)

  /** The class-level dictionary, where an entry may be None, the lock's owner, all threads,
      all nodes made, those cleaned up, and what the calls of get_node returned. */
  datatype State = State(nodes: map<int, Option<nat>>, owner: Option<nat>, threads: seq<Thread>,
                         created: seq<Made>, cleaned: set<nat>, log: seq<(int, Option<nat>)>)

  datatype Step = CallGet(t: nat, key: int) | CallClear(t: nat, key: int) | Run(t: nat) | FailCreate(t: nat)

  ghost function Initial(n: nat): State {
    State(map[], None, seq(n, _ => Idle), [], {}, [])
  }

  /** `cls.nodes.get(key)` */
  function Get(s: State, key: int): Option<nat> {
    if key in s.nodes then s.nodes[key] else None
  }

  function To(s: State, t: nat, th: Thread): State
    requires t < |s.threads|
  {
    s.(threads := s.threads[t := th])
  }

  /** One step of a thread that is inside get_node or clear_node. */
  function RunStep(s: State, t: nat): Option<State>
    requires t < |s.threads|
  {
    match s.threads[t]
    case Check(key) => Some(To(s, t, if Get(s, key).Some? then Reread(key) else Create(key)))
    case Reread(key) => Some(To(s, t, Idle).(log := s.log + [(key, Get(s, key))]))
    case Create(key) => Some(To(s, t, Acquire(key, |s.created|)).(created := s.created + [Made(key, t)]))
    case Acquire(key, node) => if s.owner == None then Some(To(s, t, Recheck(key, node)).(owner := Some(t))) else None
    case Recheck(key, node) =>
      if Get(s, key) == None then Some(To(s, t, ReturnPooled(key)).(nodes := s.nodes[key := Some(node)]))
      else Some(To(s, t, ReturnPooled(key)).(cleaned := s.cleaned + {node}))
    case ReturnPooled(key) => Some(To(s, t, Idle).(owner := None, log := s.log + [(key, Get(s, key))]))
    case ClearAcquire(key) => if s.owner == None then Some(To(s, t, ClearCheck(key)).(owner := Some(t))) else None
    case ClearCheck(key) =>
      (match Get(s, key)
       case None => Some(To(s, t, ClearRelease(key)))
       case Some(node) => Some(To(s, t, ClearEntry(key, node)).(cleaned := s.cleaned + {node})))
    case ClearEntry(key, _) => Some(To(s, t, ClearRelease(key)).(nodes := s.nodes[key := None]))
    case ClearRelease(key) => Some(To(s, t, Idle).(owner := None))
    case _ => None
  }

  /** The state after a step, None if the thread cannot take it. */
  function Next(s: State, step: Step): Option<State> {
    if step.t >= |s.threads| then None
    else
      match step
      case CallGet(t, key) => if s.threads[t] == Idle then Some(To(s, t, Check(key))) else None
      case CallClear(t, key) => if s.threads[t] == Idle then Some(To(s, t, ClearAcquire(key))) else None
      case Run(t) => RunStep(s, t)
      case FailCreate(t) => if s.threads[t].Create? then Some(To(s, t, Idle)) else None
  }

  function After(s: State, steps: seq<Step>): Option<State> {
    if steps == [] then Some(s)
    else
      match After(s, steps[..|steps| - 1])
      case None => None
      case Some(u) => Next(u, steps[|steps| - 1])
  }

  // ---------------------------------------------------------------- every node is accounted for

  predicate InsideLock(th: Thread) {
    th.Recheck? || th.ReturnPooled? || th.ClearCheck? || th.ClearEntry? || th.ClearRelease?
  }

  /** The thread has made a node and not yet published it. */
  predicate HasPrivate(th: Thread) {
    th.Acquire? || th.Recheck?
  }

  ghost predicate Private(s: State, node: nat) {
    && node < |s.created| && s.created[node].maker < |s.threads|
    && HasPrivate(s.threads[s.created[node].maker]) && s.threads[s.created[node].maker].node == node
  }

  ghost predicate Pooled(s: State, node: nat) {
    node < |s.created| && Get(s, s.created[node].key) == Some(node)
  }

  /** The owner of the lock has cleaned the node and is about to clear its entry. */
  ghost predicate BeingCleared(s: State, node: nat) {
    && node < |s.created| && s.owner.Some? && s.owner.value < |s.threads|
    && s.threads[s.owner.value] == ClearEntry(s.created[node].key, node)
  }

  ghost predicate ThreadInv(s: State, t: nat)
    requires t < |s.threads|
  {
    var th := s.threads[t];
    && (InsideLock(th) <==> s.owner == Some(t))
    && (HasPrivate(th) ==> th.node < |s.created| && s.created[th.node] == Made(th.key, t))
    && (th.ReturnPooled? ==> Get(s, th.key).Some?)
    && (th.ClearEntry? ==> Get(s, th.key) == Some(th.node) && th.node in s.cleaned)
  }

  /** A node is private to its maker, or pooled under its key, or cleaned up: one of these,
      except that clear_node cleans a node before it removes it from the pool. */
  ghost predicate NodeInv(s: State, node: nat) {
    && (Private(s, node) || Pooled(s, node) || node in s.cleaned)
    && (Private(s, node) ==> !Pooled(s, node) && node !in s.cleaned)
    && (Pooled(s, node) && node in s.cleaned ==> BeingCleared(s, node))
  }

  ghost predicate Inv(s: State) {
    && (s.owner.Some? ==> s.owner.value < |s.threads|)
    && (forall t :: 0 <= t < |s.threads| ==> ThreadInv(s, t))
    && (forall key :: key in s.nodes && s.nodes[key].Some? ==>
          s.nodes[key].value < |s.created| && s.created[s.nodes[key].value].key == key)
    && (forall node :: 0 <= node < |s.created| ==> NodeInv(s, node))
    && (forall node :: node in s.cleaned ==> node < |s.created|)
  }

  lemma OwnThread(s: State, t: nat)
    requires Inv(s) && t < |s.threads| && RunStep(s, t).Some?
    ensures ThreadInv(RunStep(s, t).value, t)
    ensures RunStep(s, t).value.owner.Some? ==> RunStep(s, t).value.owner.value < |s.threads|
  {
    assert ThreadInv(s, t);
  }

  lemma OtherThread(s: State, t: nat, j: nat)
    requires Inv(s) && t < |s.threads| && j < |s.threads| && j != t && RunStep(s, t).Some?
    ensures ThreadInv(RunStep(s, t).value, j)
  {
    assert ThreadInv(s, t) && ThreadInv(s, j);
  }

  lemma StepThreads(s: State, step: Step)
    requires Inv(s) && Next(s, step).Some?
    ensures var u := Next(s, step).value;
            && (u.owner.Some? ==> u.owner.value < |u.threads|)
            && forall t :: 0 <= t < |u.threads| ==> ThreadInv(u, t)
  {
    var u := Next(s, step).value;
    forall t | 0 <= t < |u.threads| ensures ThreadInv(u, t) {
      if !step.Run? {
        assert ThreadInv(s, t) && ThreadInv(s, step.t);
      } else if t == step.t {
        OwnThread(s, t);
      } else {
        OtherThread(s, step.t, t);
      }
    }
    if step.Run? {
      OwnThread(s, step.t);
    }
  }

  /** The step changes the pool, the created or the cleaned nodes. */
  predicate Mutates(th: Thread) {
    th.Create? || th.Recheck? || th.ClearCheck? || th.ClearEntry?
  }

  lemma QuietNode(s: State, t: nat, node: nat)
    requires Inv(s) && t < |s.threads| && !Mutates(s.threads[t]) && RunStep(s, t).Some? && node < |s.created|
    ensures NodeInv(RunStep(s, t).value, node)
  {
    assert ThreadInv(s, t) && NodeInv(s, node);
  }

  lemma PoolingNode(s: State, t: nat, node: nat)
    requires Inv(s) && t < |s.threads| && (s.threads[t].Create? || s.threads[t].Recheck?)
    requires node < |RunStep(s, t).value.created|
    ensures NodeInv(RunStep(s, t).value, node)
  {
    assert ThreadInv(s, t);
    if node < |s.created| {
      assert NodeInv(s, node);
    }
  }

  lemma ClearingNode(s: State, t: nat, node: nat)
    requires Inv(s) && t < |s.threads| && (s.threads[t].ClearCheck? || s.threads[t].ClearEntry?) && node < |s.created|
    ensures NodeInv(RunStep(s, t).value, node)
  {
    assert ThreadInv(s, t) && NodeInv(s, node);
  }

  lemma StepNode(s: State, step: Step, node: nat)
    requires Inv(s) && Next(s, step).Some? && node < |Next(s, step).value.created|
    ensures NodeInv(Next(s, step).value, node)
  {
    if step.Run? {
      var th := s.threads[step.t];
      if !Mutates(th) {
        QuietNode(s, step.t, node);
      } else if th.Create? || th.Recheck? {
        PoolingNode(s, step.t, node);
      } else {
        ClearingNode(s, step.t, node);
      }
    } else {
      assert ThreadInv(s, step.t) && NodeInv(s, node);
    }
  }

  lemma StepInv(s: State, step: Step)
    requires Inv(s) && Next(s, step).Some?
    ensures Inv(Next(s, step).value)
  {
    var u := Next(s, step).value;
    StepThreads(s, step);
    assert ThreadInv(s, step.t);
    forall node | 0 <= node < |u.created| ensures NodeInv(u, node) {
      StepNode(s, step, node);
    }
  }

  lemma {:induction false} AfterInv(n: nat, steps: seq<Step>)
    ensures After(Initial(n), steps).Some? ==> Inv(After(Initial(n), steps).value)
  {
    if steps != [] {
      var front := steps[..|steps| - 1];
      AfterInv(n, front);
      if After(Initial(n), steps).Some? {
        StepInv(After(Initial(n), front).value, steps[|steps| - 1]);
      }
    }
  }

  /** The states of all interleavings of n threads. */
  ghost predicate Reachable(n: nat, s: State) {
    exists steps :: After(Initial(n), steps) == Some(s)
  }

  /** No node is lost: in every state of every interleaving each node is private to the
      thread that made it, or pooled under its key, or cleaned up; and when no thread is
      inside a call, it is either pooled and usable or cleaned up. */
  lemma NodesAccountedFor(n: nat, s: State, node: nat)
    requires Reachable(n, s) && node < |s.created|
    ensures Private(s, node) || Pooled(s, node) || node in s.cleaned
    ensures Private(s, node) ==> !Pooled(s, node) && node !in s.cleaned
    ensures (forall t :: 0 <= t < |s.threads| ==> s.threads[t] == Idle) ==> (Pooled(s, node) <==> node !in s.cleaned)
  {
    var steps :| After(Initial(n), steps) == Some(s);
    AfterInv(n, steps);
    assert NodeInv(s, node);
  }

  /** A caller that returns from inside the lock gets a pooled node that is not cleaned up. */
  lemma LockedReturnIsUsable(n: nat, s: State, t: nat)
    requires Reachable(n, s) && t < |s.threads| && s.threads[t].ReturnPooled?
    ensures Get(s, s.threads[t].key).Some? && Get(s, s.threads[t].key).value !in s.cleaned
  {
    var steps :| After(Initial(n), steps) == Some(s);
    AfterInv(n, steps);
    assert ThreadInv(s, t);
    var node := Get(s, s.threads[t].key).value;
    assert NodeInv(s, node);
  }

  // ---------------------------------------------------------------- runs that do not clear a key

  predicate Clears(th: Thread) {
    th.ClearAcquire? || th.ClearCheck? || th.ClearEntry? || th.ClearRelease?
  }

  /** What every call for the key has returned is what the pool still holds. */
  ghost predicate Settled(s: State, key: int) {
    && (forall t :: 0 <= t < |s.threads| && Clears(s.threads[t]) ==> s.threads[t].key != key)
    && (forall t :: 0 <= t < |s.threads| && s.threads[t] == Reread(key) ==> Get(s, key).Some?)
    && (forall i :: 0 <= i < |s.log| && s.log[i].0 == key ==> s.log[i].1.Some? && s.log[i].1 == Get(s, key))
  }

  /** clear_node is called for the given keys only. */
  ghost predicate OnlyClears(steps: seq<Step>, keys: set<int>) {
    forall x :: x in steps && x.CallClear? ==> x.key in keys
  }

  /** An entry that holds a node changes only when it is cleared. */
  lemma EntryStays(s: State, step: Step, key: int)
    requires Inv(s) && Settled(s, key) && Next(s, step).Some? && Get(s, key).Some?
    ensures Get(Next(s, step).value, key) == Get(s, key)
  {
    assert ThreadInv(s, step.t);
  }

  lemma SettledThread(s: State, step: Step, key: int, t: nat)
    requires Inv(s) && Settled(s, key) && Next(s, step).Some? && (step.CallClear? ==> step.key != key)
    requires t < |s.threads|
    ensures var th := Next(s, step).value.threads[t];
            && (Clears(th) ==> th.key != key)
            && (th == Reread(key) ==> Get(Next(s, step).value, key).Some?)
  {
    if Get(s, key).Some? {
      EntryStays(s, step, key);
    }
  }

  lemma SettledLog(s: State, step: Step, key: int, i: nat)
    requires Inv(s) && Settled(s, key) && Next(s, step).Some?
    requires i < |Next(s, step).value.log| && Next(s, step).value.log[i].0 == key
    ensures var u := Next(s, step).value;
            u.log[i].1.Some? && u.log[i].1 == Get(u, key)
  {
    if Get(s, key).Some? {
      EntryStays(s, step, key);
    }
    assert ThreadInv(s, step.t);
  }

  lemma SettledStep(s: State, step: Step, key: int)
    requires Inv(s) && Settled(s, key) && Next(s, step).Some? && (step.CallClear? ==> step.key != key)
    ensures Settled(Next(s, step).value, key)
  {
    var u := Next(s, step).value;
    forall t | 0 <= t < |u.threads|
      ensures Clears(u.threads[t]) ==> u.threads[t].key != key
      ensures u.threads[t] == Reread(key) ==> Get(u, key).Some?
    {
      SettledThread(s, step, key, t);
    }
    forall i | 0 <= i < |u.log| && u.log[i].0 == key ensures u.log[i].1.Some? && u.log[i].1 == Get(u, key) {
      SettledLog(s, step, key, i);
    }
  }

  lemma {:induction false} SettledRun(n: nat, steps: seq<Step>, keys: set<int>, key: int)
    requires OnlyClears(steps, keys) && key !in keys && After(Initial(n), steps).Some?
    ensures Inv(After(Initial(n), steps).value) && Settled(After(Initial(n), steps).value, key)
  {
    AfterInv(n, steps);
    if steps != [] {
      var m := |steps| - 1;
      assert steps[m] in steps;
      AfterInv(n, steps[..m]);
      SettledRun(n, steps[..m], keys, key);
      SettledStep(After(Initial(n), steps[..m]).value, steps[m], key);
    }
  }

  /** A settled key is never being cleared, so its pooled node is usable. */
  lemma SettledIsUsable(s: State, key: int)
    requires Inv(s) && Settled(s, key) && Get(s, key).Some?
    ensures Get(s, key).value !in s.cleaned
  {
    var node := Get(s, key).value;
    assert NodeInv(s, node) && !BeingCleared(s, node);
  }

  /** If clear_node is called for other keys only, all calls for one key return one and the
      same node, which is not cleaned up. */
  lemma OneNodePerKey(n: nat, steps: seq<Step>, keys: set<int>, key: int, i: nat, j: nat)
    requires OnlyClears(steps, keys) && key !in keys && After(Initial(n), steps).Some?
    requires i < |After(Initial(n), steps).value.log| && After(Initial(n), steps).value.log[i].0 == key
    requires j < |After(Initial(n), steps).value.log| && After(Initial(n), steps).value.log[j].0 == key
    ensures var s := After(Initial(n), steps).value;
            s.log[i].1.Some? && s.log[i].1 == s.log[j].1 && s.log[i].1.value !in s.cleaned
  {
    SettledRun(n, steps, keys, key);
    SettledIsUsable(After(Initial(n), steps).value, key);
  }

  // ---------------------------------------------------------------- when get_node fails

  /** The step is the return of a call for the key. */
  ghost predicate Returns(s: State, step: Step, key: int, r: Option<nat>) {
    Next(s, step).Some? && Next(s, step).value.log == s.log + [(key, r)]
  }

  /** A step returns from one call of get_node or from none. */
  lemma OneReturn(s: State, step: Step)
    requires Next(s, step).Some?
    ensures Next(s, step).value.log == s.log || exists key, r :: Returns(s, step, key, r)
  {
    if step.Run? && (s.threads[step.t].Reread? || s.threads[step.t].ReturnPooled?) {
      var key := s.threads[step.t].key;
      assert Returns(s, step, key, Get(s, key));
    }
  }

  /** Some run that clears only the given keys ends with a call that returns None. */
  ghost predicate CanReturnNone(n: nat, keys: set<int>, key: int) {
    exists s, step :: ReachableBy(n, keys, s) && Returns(s, step, key, None)
  }

  /** Some such run ends with a call that returns a node already cleaned up. */
  ghost predicate CanReturnCleaned(n: nat, keys: set<int>, key: int) {
    exists s, step, node :: ReachableBy(n, keys, s) && Returns(s, step, key, Some(node)) && node in s.cleaned
  }

  ghost predicate ReachableBy(n: nat, keys: set<int>, s: State) {
    exists steps :: OnlyClears(steps, keys) && After(Initial(n), steps) == Some(s)
  }

  predicate Unusable(s: State, r: Option<nat>) {
    r == None || r.value in s.cleaned
  }

  /** Only the second read of the unlocked path returns something unusable: it does so
      exactly when the entry is gone, or the owner of the lock has cleaned the node and is
      about to clear the entry. */
  lemma UnusableOnlyUnlocked(n: nat, s: State, step: Step, key: int, r: Option<nat>)
    requires Reachable(n, s) && Returns(s, step, key, r)
    ensures step.Run? && step.t < |s.threads| && r == Get(s, key)
    ensures s.threads[step.t] == Reread(key) || (s.threads[step.t] == ReturnPooled(key) && !Unusable(s, r))
    ensures Unusable(s, r) <==> r == None || (s.owner.Some? && s.owner.value < |s.threads|
                                              && s.threads[s.owner.value] == ClearEntry(key, r.value))
  {
    var steps :| After(Initial(n), steps) == Some(s);
    AfterInv(n, steps);
    assert s.log + [(key, r)] != s.log;
    assert Next(s, step).value.log[|s.log|] == (key, r);
    assert ThreadInv(s, step.t);
    if r.Some? {
      assert NodeInv(s, r.value);
      if s.owner.Some? {
        assert ThreadInv(s, s.owner.value);
      }
    }
  }

  /** With one thread the second read sees what the first one saw. */
  lemma {:induction false} SoleThread(n: nat, steps: seq<Step>)
    requires n <= 1 && After(Initial(n), steps).Some?
    ensures var s := After(Initial(n), steps).value;
            |s.threads| == n && forall t :: 0 <= t < n && s.threads[t].Reread? ==> Get(s, s.threads[t].key).Some?
  {
    if steps != [] {
      SoleThread(n, steps[..|steps| - 1]);
    }
  }

  lemma NeverUnusable(n: nat, keys: set<int>, s: State, step: Step, key: int, r: Option<nat>)
    requires ReachableBy(n, keys, s) && Returns(s, step, key, r) && (n < 2 || key !in keys)
    ensures !Unusable(s, r)
  {
    var steps :| OnlyClears(steps, keys) && After(Initial(n), steps) == Some(s);
    UnusableOnlyUnlocked(n, s, step, key, r);
    if n < 2 {
      SoleThread(n, steps);
    } else {
      SettledRun(n, steps, keys, key);
    }
  }

  /** A call for a key can fail, in either way, exactly if two threads are at work and
      clear_node is called for the key. */
  lemma FailsExactly(n: nat, keys: set<int>, key: int)
    ensures CanReturnNone(n, keys, key) <==> n >= 2 && key in keys
    ensures CanReturnCleaned(n, keys, key) <==> n >= 2 && key in keys
  {
    if CanReturnNone(n, keys, key) {
      var s, step :| ReachableBy(n, keys, s) && Returns(s, step, key, None);
      if n < 2 || key !in keys {
        NeverUnusable(n, keys, s, step, key, None);
      }
    }
    if CanReturnCleaned(n, keys, key) {
      var s, step, node :| ReachableBy(n, keys, s) && Returns(s, step, key, Some(node)) && node in s.cleaned;
      if n < 2 || key !in keys {
        NeverUnusable(n, keys, s, step, key, Some(node));
      }
    }
    if n >= 2 && key in keys {
      NoneReturned(n, keys, key);
      CleanedReturned(n, keys, key);
    }
  }

  // ---------------------------------------------------------------- the two races

  /** The state with n threads, all but the first two idle. */
  ghost function Wide(s: State, n: nat): State
    requires n >= 2
  {
    s.(threads := s.threads + seq(n - 2, _ => Idle))
  }

  lemma WideStep(s: State, n: nat, step: Step)
    requires n >= 2 && |s.threads| == 2 && Next(s, step).Some?
    ensures Next(Wide(s, n), step) == Some(Wide(Next(s, step).value, n))
    ensures |Next(s, step).value.threads| == 2
  {
    var rest := seq(n - 2, _ => Idle);
    var th := Next(s, step).value.threads[step.t];
    assert (s.threads + rest)[step.t := th] == s.threads[step.t := th] + rest;
  }

  /** What two threads can do, they can do among others. */
  lemma {:induction false} WideRun(n: nat, steps: seq<Step>)
    requires n >= 2 && After(Initial(2), steps).Some?
    ensures |After(Initial(2), steps).value.threads| == 2
    ensures After(Initial(n), steps) == Some(Wide(After(Initial(2), steps).value, n))
  {
    if steps == [] {
      assert Initial(n).threads == Wide(Initial(2), n).threads;
    } else {
      WideRun(n, steps[..|steps| - 1]);
      WideStep(After(Initial(2), steps[..|steps| - 1]).value, n, steps[|steps| - 1]);
    }
  }

  lemma WideReturns(n: nat, keys: set<int>, s: State, step: Step, key: int, r: Option<nat>)
    requires n >= 2 && ReachableBy(2, keys, s) && Returns(s, step, key, r)
    ensures ReachableBy(n, keys, Wide(s, n)) && Returns(Wide(s, n), step, key, r)
  {
    var steps :| OnlyClears(steps, keys) && After(Initial(2), steps) == Some(s);
    WideRun(n, steps);
    WideStep(s, n, step);
  }

  lemma Follow(keys: set<int>, s: State, step: Step, u: State)
    requires ReachableBy(2, keys, s) && Next(s, step) == Some(u) && (step.CallClear? ==> step.key in keys)
    ensures ReachableBy(2, keys, u)
  {
    var steps :| OnlyClears(steps, keys) && After(Initial(2), steps) == Some(s);
    assert (steps + [step])[..|steps|] == steps;
    assert After(Initial(2), steps + [step]) == Some(u);
    assert OnlyClears(steps + [step], keys);
  }

  /** Two threads at a and b, the first node made for the key and perhaps cleaned. */
  ghost function Pair(nodes: map<int, Option<nat>>, owner: Option<nat>, a: Thread, b: Thread, created: seq<Made>,
                      cleaned: set<nat>, log: seq<(int, Option<nat>)>): State {
    State(nodes, owner, [a, b], created, cleaned, log)
  }

  /** A step of the first thread from a to a'. */
  lemma FirstMoves(keys: set<int>, s: State, b: Thread, step: Step, u: State, a': Thread)
    requires ReachableBy(2, keys, s) && |s.threads| == 2 && s.threads[1] == b && step.t == 0
    requires step.CallClear? ==> step.key in keys
    requires Next(s, step).Some? && Next(s, step).value.(threads := [a', b]) == u
    requires Next(s, step).value.threads[0] == a'
    ensures ReachableBy(2, keys, u)
  {
    assert |Next(s, step).value.threads| == 2 && Next(s, step).value.threads[1] == b;
    assert Next(s, step).value.threads == [a', b];
    Follow(keys, s, step, u);
  }

  /** Thread 0 is about to publish the node it made for the key, thread 1 idles. */
  lemma FirstMade(keys: set<int>, key: int)
    ensures ReachableBy(2, keys, Pair(map[], None, Acquire(key, 0), Idle, [Made(key, 0)], {}, []))
  {
    var s := Pair(map[], None, Idle, Idle, [], {}, []);
    assert Initial(2) == s && After(Initial(2), []) == Some(s) && OnlyClears([], keys);
    FirstMoves(keys, s, Idle, CallGet(0, key), s.(threads := [Check(key), Idle]), Check(key));
    s := s.(threads := [Check(key), Idle]);
    FirstMoves(keys, s, Idle, Run(0), s.(threads := [Create(key), Idle]), Create(key));
    s := s.(threads := [Create(key), Idle]);
    assert [] + [Made(key, 0)] == [Made(key, 0)];
    FirstMoves(keys, s, Idle, Run(0), s.(threads := [Acquire(key, 0), Idle], created := [Made(key, 0)]), Acquire(key, 0));
  }

  /** Thread 0 has made the node for the key. */
  lemma FirstNode(keys: set<int>, key: int)
    ensures ReachableBy(2, keys, Pair(map[key := Some(0)], None, Idle, Idle, [Made(key, 0)], {}, [(key, Some(0))]))
  {
    FirstMade(keys, key);
    var s := Pair(map[], None, Acquire(key, 0), Idle, [Made(key, 0)], {}, []);
    var u := s.(threads := [Recheck(key, 0), Idle], owner := Some(0));
    FirstMoves(keys, s, Idle, Run(0), u, Recheck(key, 0));
    var v := u.(threads := [ReturnPooled(key), Idle], nodes := map[key := Some(0)]);
    FirstMoves(keys, u, Idle, Run(0), v, ReturnPooled(key));
    assert [] + [(key, Some(0))] == [(key, Some(0))];
    FirstMoves(keys, v, Idle, Run(0), v.(threads := [Idle, Idle], owner := None, log := [(key, Some(0))]), Idle);
  }

  /** Thread 1 has found the node in its first check. */
  lemma SecondFound(keys: set<int>, key: int)
    ensures ReachableBy(2, keys, Pair(map[key := Some(0)], None, Idle, Reread(key), [Made(key, 0)], {}, [(key, Some(0))]))
  {
    FirstNode(keys, key);
    var s := Pair(map[key := Some(0)], None, Idle, Idle, [Made(key, 0)], {}, [(key, Some(0))]);
    assert [Idle, Idle][1 := Check(key)] == [Idle, Check(key)];
    Follow(keys, s, CallGet(1, key), s.(threads := [Idle, Check(key)]));
    assert [Idle, Check(key)][1 := Reread(key)] == [Idle, Reread(key)];
    Follow(keys, s.(threads := [Idle, Check(key)]), Run(1), s.(threads := [Idle, Reread(key)]));
  }

  /** Thread 0 holds the lock to clear the entry. */
  lemma FirstLocks(keys: set<int>, key: int)
    requires key in keys
    ensures ReachableBy(2, keys, Pair(map[key := Some(0)], Some(0), ClearCheck(key), Reread(key), [Made(key, 0)], {}, [(key, Some(0))]))
  {
    SecondFound(keys, key);
    var b := Reread(key);
    var s := Pair(map[key := Some(0)], None, Idle, b, [Made(key, 0)], {}, [(key, Some(0))]);
    FirstMoves(keys, s, b, CallClear(0, key), s.(threads := [ClearAcquire(key), b]), ClearAcquire(key));
    s := s.(threads := [ClearAcquire(key), b]);
    FirstMoves(keys, s, b, Run(0), s.(threads := [ClearCheck(key), b], owner := Some(0)), ClearCheck(key));
  }

  /** Thread 0 has cleaned the node, and the entry still holds it. */
  lemma FirstCleans(keys: set<int>, key: int)
    requires key in keys
    ensures ReachableBy(2, keys, Pair(map[key := Some(0)], Some(0), ClearEntry(key, 0), Reread(key), [Made(key, 0)], {0}, [(key, Some(0))]))
  {
    FirstLocks(keys, key);
    var b := Reread(key);
    var s := Pair(map[key := Some(0)], Some(0), ClearCheck(key), b, [Made(key, 0)], {}, [(key, Some(0))]);
    assert {} + {0} == {0};
    FirstMoves(keys, s, b, Run(0), s.(threads := [ClearEntry(key, 0), b], cleaned := {0}), ClearEntry(key, 0));
  }

  /** Between cleanup and the clearing of the entry, the second read still finds the node. */
  lemma CleanedReturned(n: nat, keys: set<int>, key: int)
    requires n >= 2 && key in keys
    ensures CanReturnCleaned(n, keys, key)
  {
    FirstCleans(keys, key);
    var s := Pair(map[key := Some(0)], Some(0), ClearEntry(key, 0), Reread(key), [Made(key, 0)], {0}, [(key, Some(0))]);
    assert Returns(s, Run(1), key, Some(0));
    WideReturns(n, keys, s, Run(1), key, Some(0));
  }

  /** After it, the second read finds None. */
  lemma NoneReturned(n: nat, keys: set<int>, key: int)
    requires n >= 2 && key in keys
    ensures CanReturnNone(n, keys, key)
  {
    FirstCleans(keys, key);
    var b := Reread(key);
    var s := Pair(map[key := Some(0)], Some(0), ClearEntry(key, 0), b, [Made(key, 0)], {0}, [(key, Some(0))]);
    assert map[key := Some(0)][key := None] == map[key := None];
    var u := s.(threads := [ClearRelease(key), b], nodes := map[key := None]);
    FirstMoves(keys, s, b, Run(0), u, ClearRelease(key));
    assert Returns(u, Run(1), key, None);
    WideReturns(n, keys, u, Run(1), key, None);
  }
}
