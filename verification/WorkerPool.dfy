/** The worker pool of execution_service.py as a protocol: any interleaving of callers of
    `new_work` with the worker threads, one lock operation or field access at a time. */
module WorkerPool {
  import opened Prelude

  /** The four fields work, args, kw and ctx that `do` stores. */
  type Job = seq<int>
  const FIELDS := 4

  /** Where a worker thread stands in `run`. */
  datatype WorkerPc =
    | SetIdle       // about to set _busy to False
    | BeforeWait    // about to wait on its condition
    | Waiting       // in wait(), not notified
    | Notified      // in wait(), notified, not yet holding the lock again
    | Awake         // holding the lock, about to read self.work
    | Running       // in do_work

  datatype Lock = Free | HeldByWorker | HeldByCaller

  /** The field _busy, which does not exist until the thread assigns it. */
  datatype Flag = Unset | Busy | NotBusy

  datatype Worker = Worker(pc: WorkerPc, busy: Flag, lock: Lock, slots: Job)

  /** Where the holder of task_lock stands in `new_work` and `do`. */
  datatype CallPc =
    | Scanning(i: nat)
    | Storing(i: nat, k: nat)   // k fields are stored; with all four it asks for the lock
    | Notifying(i: nat)
    | Unlocking(i: nat)
    | Marking(i: nat)           // about to set w._busy to True
    | Registering(i: nat)

  datatype Call = Call(job: Job, pc: CallPc)

  /** `accepted` lists the calls that returned normally with their workers, `runs` the
      calls of do_work, both in order of time. */
  datatype State = State(workers: seq<Worker>, call: Option<Call>, accepted: seq<(nat, Job)>, runs: seq<(nat, Job)>)

  datatype Step = Begin(job: Job) | CallStep | WorkerStep(w: nat)

  // ---------------------------------------------------------------- steps

  /** n threads that hold their locks and are about to enter the loop. */
  ghost function Initial(n: nat): State {
    State(seq(n, _ => Worker(SetIdle, Unset, HeldByWorker, [0, 0, 0, 0])), None, [], [])
  }

  function StepWorker(w: Worker): Option<Worker> {
    match w.pc
    case SetIdle => Some(w.(busy := NotBusy, pc := BeforeWait))
    case BeforeWait => Some(w.(lock := Free, pc := Waiting))
    case Waiting => None
    case Notified => if w.lock == Free then Some(w.(lock := HeldByWorker, pc := Awake)) else None
    case Awake => Some(w.(pc := Running))
    case Running => Some(w.(pc := SetIdle))
  }

  function WithWorker(s: State, i: nat, w: Worker): State
    requires i < |s.workers|
  {
    s.(workers := s.workers[i := w])
  }

  function At(s: State, pc: CallPc): State
    requires s.call.Some?
  {
    s.(call := Some(s.call.value.(pc := pc)))
  }

  /** One step of the thread that holds task_lock. */
  function StepCall(s: State): Option<State>
    requires s.call.Some?
  {
    var n, job := |s.workers|, s.call.value.job;
    match s.call.value.pc
    case Scanning(i) =>
      if i >= n then Some(s.(call := None))                            // ThreadLimitException
      else if s.workers[i].busy == Unset then Some(s.(call := None))    // AttributeError
      else if s.workers[i].busy == Busy then Some(At(s, Scanning(i + 1)))
      else Some(At(s, Storing(i, 0)))
    case Storing(i, k) =>
      if i >= n then None
      else if k < FIELDS && k < |job| && k < |s.workers[i].slots| then
        Some(At(WithWorker(s, i, s.workers[i].(slots := s.workers[i].slots[k := job[k]])), Storing(i, k + 1)))
      else if s.workers[i].lock == Free then
        Some(At(WithWorker(s, i, s.workers[i].(lock := HeldByCaller)), Notifying(i)))
      else None
    case Notifying(i) =>
      if i >= n then None
      else if s.workers[i].pc == Waiting then
        Some(At(WithWorker(s, i, s.workers[i].(pc := Notified)), Unlocking(i)))
      else Some(At(s, Unlocking(i)))                                   // nobody waits: the notify is lost
    case Unlocking(i) =>
      if i >= n then None else Some(At(WithWorker(s, i, s.workers[i].(lock := Free)), Marking(i)))
    case Marking(i) =>
      if i >= n then None else Some(At(WithWorker(s, i, s.workers[i].(busy := Busy)), Registering(i)))
    case Registering(i) => Some(s.(call := None, accepted := s.accepted + [(i, job)]))
  }

  /** The state after one step of one thread, None if the thread cannot move. */
  function Next(s: State, step: Step): Option<State> {
    match step
    case Begin(job) =>
      if s.call == None && |job| == FIELDS then Some(s.(call := Some(Call(job, Scanning(0))))) else None
    case CallStep => if s.call.Some? then StepCall(s) else None
    case WorkerStep(i) =>
      if i >= |s.workers| || StepWorker(s.workers[i]) == None then None
      else
        var moved := WithWorker(s, i, StepWorker(s.workers[i]).value);
        Some(if s.workers[i].pc == Awake then moved.(runs := s.runs + [(i, s.workers[i].slots)]) else moved)
  }

  /** The state after a whole run. */
  function After(s: State, steps: seq<Step>): Option<State> {
    if steps == [] then Some(s)
    else
      match After(s, steps[..|steps| - 1])
      case None => None
      case Some(t) => Next(t, steps[|steps| - 1])
  }

  // ---------------------------------------------------------------- invariant

  /** The jobs of one worker in a log, in order. */
  function Of(log: seq<(nat, Job)>, i: nat): seq<Job> {
    if log == [] then []
    else Of(log[..|log| - 1], i) + (if log[|log| - 1].0 == i then [log[|log| - 1].1] else [])
  }

  /** A job handed over and not yet started. */
  function Pending(w: Worker): seq<Job> {
    if w.pc == Notified || w.pc == Awake then [w.slots] else []
  }

  /** The job of a call that has notified worker i and has not returned. */
  function InFlight(call: Option<Call>, i: nat): seq<Job> {
    if call.Some? && (call.value.pc == Unlocking(i) || call.value.pc == Marking(i) || call.value.pc == Registering(i))
    then [call.value.job] else []
  }

  predicate Holds(w: Worker) {
    w.pc == SetIdle || w.pc == BeforeWait || w.pc == Awake || w.pc == Running
  }

  /** Nothing stored, nothing running, about to wait or waiting. */
  predicate Idle(w: Worker) {
    w.pc == BeforeWait || w.pc == Waiting
  }

  /** What the caller relies on while it deals with worker i. */
  ghost predicate CallOn(call: Option<Call>, i: nat, w: Worker) {
    call.Some? ==>
      match call.value.pc
      case Scanning(_) => true
      case Storing(j, k) =>
        j == i ==>
          && k <= FIELDS == |w.slots| == |call.value.job|
          && Idle(w) && w.busy == NotBusy && w.slots[..k] == call.value.job[..k]
      case Notifying(j) => j == i ==> w.pc == Waiting && w.busy == NotBusy && w.slots == call.value.job
      case Unlocking(j) => j == i ==> w.pc == Notified && w.slots == call.value.job
      case Marking(_) => true
      case Registering(_) => true
  }

  /** The worker is the one that a call has woken and not yet marked busy. */
  predicate Woken(call: Option<Call>, i: nat) {
    call.Some? && (call.value.pc == Unlocking(i) || call.value.pc == Marking(i))
  }

  predicate LockedByCall(call: Option<Call>, i: nat) {
    call.Some? && (call.value.pc == Notifying(i) || call.value.pc == Unlocking(i))
  }

  ghost predicate WorkerInv(s: State, i: nat)
    requires i < |s.workers|
  {
    var w := s.workers[i];
    && |w.slots| == FIELDS
    && (w.lock == HeldByWorker <==> Holds(w))
    && (w.lock == HeldByCaller <==> LockedByCall(s.call, i))
    && (w.busy == NotBusy ==> Idle(w) || Woken(s.call, i))
    && (w.busy == Unset ==> w.pc == SetIdle)
    && (s.call.Some? ==> |s.call.value.job| == FIELDS)
    && CallOn(s.call, i, w)
    && Of(s.runs, i) + Pending(w) == Of(s.accepted, i) + InFlight(s.call, i)
  }

  ghost predicate Inv(s: State) {
    && (s.call.Some? && !s.call.value.pc.Scanning? ==> s.call.value.pc.i < |s.workers|)
    && (forall x :: x in s.accepted || x in s.runs ==> x.0 < |s.workers|)
    && forall i :: 0 <= i < |s.workers| ==> WorkerInv(s, i)
  }

  lemma InitialInv(n: nat)
    ensures Inv(Initial(n))
  {
    forall i | 0 <= i < n ensures WorkerInv(Initial(n), i) {
      assert Of([], i) == [];
    }
  }

  lemma OfAppend(log: seq<(nat, Job)>, x: (nat, Job), i: nat)
    ensures Of(log + [x], i) == Of(log, i) + (if x.0 == i then [x.1] else [])
  {
    assert (log + [x])[..|log|] == log;
  }

  /** A step of one worker keeps the invariant of all. */
  lemma WorkerStepInv(s: State, i: nat)
    requires Inv(s) && Next(s, WorkerStep(i)).Some?
    ensures Inv(Next(s, WorkerStep(i)).value)
  {
    var t := Next(s, WorkerStep(i)).value;
    assert WorkerInv(s, i);
    forall j | 0 <= j < |s.workers| ensures WorkerInv(t, j) {
      assert WorkerInv(s, j);
      if s.workers[i].pc == Awake {
        OfAppend(s.runs, (i, s.workers[i].slots), j);
      }
    }
    forall x | x in t.accepted || x in t.runs ensures x.0 < |t.workers| {
    }
  }

  lemma StoreField(slots: Job, job: Job, k: nat)
    requires |slots| == |job| == FIELDS && k <= FIELDS && slots[..k] == job[..k]
    ensures k < FIELDS ==> slots[k := job[k]][..k + 1] == job[..k + 1]
    ensures k == FIELDS ==> slots == job
  {
    if k < FIELDS {
      assert job[..k + 1] == job[..k] + [job[k]];
    } else {
      assert slots[..k] == slots && job[..k] == job;
    }
  }

  /** While fields are stored only the chosen worker's fields and lock change. */
  lemma StoringInv(s: State)
    requires Inv(s) && s.call.Some? && s.call.value.pc.Storing? && Next(s, CallStep).Some?
    ensures Inv(Next(s, CallStep).value)
  {
    var t := Next(s, CallStep).value;
    var i, k := s.call.value.pc.i, s.call.value.pc.k;
    assert WorkerInv(s, i);
    StoreField(s.workers[i].slots, s.call.value.job, k);
    forall j | 0 <= j < |s.workers| ensures WorkerInv(t, j) {
      assert WorkerInv(s, j);
    }
  }

  lemma RegisteringInv(s: State)
    requires Inv(s) && s.call.Some? && s.call.value.pc.Registering?
    ensures Inv(Next(s, CallStep).value)
  {
    var t := Next(s, CallStep).value;
    forall j | 0 <= j < |s.workers| ensures WorkerInv(t, j) {
      assert WorkerInv(s, j);
      OfAppend(s.accepted, (s.call.value.pc.i, s.call.value.job), j);
    }
  }

  lemma NotifyingInv(s: State)
    requires Inv(s) && s.call.Some? && s.call.value.pc.Notifying?
    ensures Inv(Next(s, CallStep).value)
  {
    var t, i := Next(s, CallStep).value, s.call.value.pc.i;
    assert WorkerInv(s, i);
    forall j | 0 <= j < |s.workers| ensures WorkerInv(t, j) {
      assert WorkerInv(s, j);
      if j == i {
        assert Of(s.runs, i) + [] == Of(s.runs, i) && Of(s.accepted, i) + [] == Of(s.accepted, i);
      }
    }
  }

  lemma ScanningInv(s: State)
    requires Inv(s) && s.call.Some? && s.call.value.pc.Scanning?
    ensures Inv(Next(s, CallStep).value)
  {
    var t := Next(s, CallStep).value;
    forall j | 0 <= j < |s.workers| ensures WorkerInv(t, j) {
      assert WorkerInv(s, j);
      assert s.workers[j].slots[..0] == s.call.value.job[..0];
    }
  }

  lemma WakingInv(s: State)
    requires Inv(s) && s.call.Some? && (s.call.value.pc.Unlocking? || s.call.value.pc.Marking?)
    ensures Inv(Next(s, CallStep).value)
  {
    var t := Next(s, CallStep).value;
    forall j | 0 <= j < |s.workers| ensures WorkerInv(t, j) {
      assert WorkerInv(s, j);
    }
  }

  /** A step of the caller keeps the invariant of all. */
  lemma CallStepInv(s: State)
    requires Inv(s) && Next(s, CallStep).Some?
    ensures Inv(Next(s, CallStep).value)
  {
    match s.call.value.pc
    case Scanning(_) => ScanningInv(s);
    case Storing(_, _) => StoringInv(s);
    case Notifying(_) => NotifyingInv(s);
    case Registering(_) => RegisteringInv(s);
    case Unlocking(_) => WakingInv(s);
    case Marking(_) => WakingInv(s);
  }

  lemma StepInv(s: State, step: Step)
    requires Inv(s) && Next(s, step).Some?
    ensures Inv(Next(s, step).value)
  {
    match step
    case Begin(job) =>
      forall j | 0 <= j < |s.workers| ensures WorkerInv(Next(s, step).value, j) {
        assert WorkerInv(s, j);
      }
    case CallStep => CallStepInv(s);
    case WorkerStep(i) => WorkerStepInv(s, i);
  }

  lemma {:induction false} ReachableInv(n: nat, steps: seq<Step>)
    ensures After(Initial(n), steps).Some? ==> Inv(After(Initial(n), steps).value)
  {
    if steps == [] {
      InitialInv(n);
    } else {
      var front := steps[..|steps| - 1];
      ReachableInv(n, front);
      if After(Initial(n), steps).Some? {
        StepInv(After(Initial(n), front).value, steps[|steps| - 1]);
      }
    }
  }

  // ---------------------------------------------------------------- safety

  /** The states of all interleavings of a pool of n workers. */
  ghost predicate Reachable(n: nat, s: State) {
    exists steps :: After(Initial(n), steps) == Some(s)
  }

  lemma ReachableWorker(n: nat, s: State, i: nat)
    requires Reachable(n, s)
    ensures Inv(s)
    ensures i < |s.workers| ==> WorkerInv(s, i)
  {
    var steps :| After(Initial(n), steps) == Some(s);
    ReachableInv(n, steps);
  }

  /** Each worker runs the jobs handed to it in order, each once, and is at most one job
      behind; it runs nothing else. */
  lemma RunOnceInOrder(n: nat, s: State, i: nat)
    requires Reachable(n, s) && i < |s.workers|
    ensures Of(s.runs, i) + Pending(s.workers[i]) == Of(s.accepted, i) + InFlight(s.call, i)
    ensures |Of(s.runs, i)| <= |Of(s.accepted, i)| + 1 && |Of(s.accepted, i)| <= |Of(s.runs, i)| + 1
  {
    ReachableWorker(n, s, i);
  }

  /** A notify always finds the worker waiting for it. */
  lemma NoLostNotify(n: nat, s: State)
    requires Reachable(n, s) && s.call.Some? && s.call.value.pc.Notifying?
    ensures s.call.value.pc.i < |s.workers| && s.workers[s.call.value.pc.i].pc == Waiting
    ensures s.workers[s.call.value.pc.i].slots == s.call.value.job
  {
    ReachableWorker(n, s, s.call.value.pc.i);
  }

  /** The fields of a worker are overwritten only when the last job was read. */
  lemma NoOverwrite(n: nat, s: State)
    requires Reachable(n, s) && s.call.Some? && s.call.value.pc.Storing?
    ensures s.call.value.pc.i < |s.workers|
    ensures var i := s.call.value.pc.i;
            Pending(s.workers[i]) == [] && Of(s.runs, i) == Of(s.accepted, i)
  {
    ReachableWorker(n, s, s.call.value.pc.i);
    NothingPending(s, s.call.value.pc.i);
  }

  lemma NothingPending(s: State, i: nat)
    requires i < |s.workers| && WorkerInv(s, i) && Pending(s.workers[i]) == [] && InFlight(s.call, i) == []
    ensures Of(s.runs, i) == Of(s.accepted, i)
  {
    assert Of(s.runs, i) + [] == Of(s.runs, i) && Of(s.accepted, i) + [] == Of(s.accepted, i);
  }

  /** A worker whose flag is False, and that no caller has just woken, has run all its
      jobs and is about to wait. */
  lemma NotBusyIsIdle(n: nat, s: State, i: nat)
    requires Reachable(n, s) && i < |s.workers|
    requires s.workers[i].busy == NotBusy && !Woken(s.call, i)
    ensures Idle(s.workers[i]) && Pending(s.workers[i]) == []
    ensures s.call == None ==> Of(s.runs, i) == Of(s.accepted, i)
  {
    ReachableWorker(n, s, i);
    if s.call == None {
      NothingPending(s, i);
    }
  }

  // ---------------------------------------------------------------- completion

  lemma {:induction false} CountOf(log: seq<(nat, Job)>, i: nat, job: Job)
    ensures multiset(log)[(i, job)] == multiset(Of(log, i))[job]
  {
    if log != [] {
      var n := |log| - 1;
      CountOf(log[..n], i, job);
      assert log == log[..n] + [log[n]];
    }
  }

  lemma SameLogs(a: seq<(nat, Job)>, b: seq<(nat, Job)>, n: nat)
    requires forall x :: x in a || x in b ==> x.0 < n
    requires forall i :: 0 <= i < n ==> Of(a, i) == Of(b, i)
    ensures multiset(a) == multiset(b)
  {
    forall x: (nat, Job) ensures multiset(a)[x] == multiset(b)[x] {
      CountOf(a, x.0, x.1);
      CountOf(b, x.0, x.1);
      if x.0 >= n {
        assert x !in a && x !in b;
      }
    }
  }

  /** No call is going on and no worker can move. */
  ghost predicate Quiescent(s: State) {
    s.call == None && forall i :: 0 <= i < |s.workers| ==> Next(s, WorkerStep(i)) == None
  }

  /** Once everything has come to rest, every accepted job has been run exactly as often
      as it was accepted, by the worker it was given to. */
  lemma AllAcceptedAreRun(n: nat, s: State)
    requires Reachable(n, s) && Quiescent(s)
    ensures multiset(s.runs) == multiset(s.accepted)
    ensures forall i :: 0 <= i < |s.workers| ==> s.workers[i].pc == Waiting && Of(s.runs, i) == Of(s.accepted, i)
  {
    ReachableWorker(n, s, 0);
    forall i | 0 <= i < |s.workers| ensures s.workers[i].pc == Waiting && Of(s.runs, i) == Of(s.accepted, i) {
      assert WorkerInv(s, i) && Next(s, WorkerStep(i)) == None;
      RestingWorker(s, i);
    }
    SameLogs(s.runs, s.accepted, |s.workers|);
  }

  lemma RestingWorker(s: State, i: nat)
    requires i < |s.workers| && WorkerInv(s, i) && s.call == None && Next(s, WorkerStep(i)) == None
    ensures s.workers[i].pc == Waiting && Of(s.runs, i) == Of(s.accepted, i)
  {
    assert StepWorker(s.workers[i]) == None;
    NothingPending(s, i);
  }

  /** How many steps a worker can take before it waits. */
  function WorkerRank(w: Worker): nat {
    match w.pc
    case Waiting => 0
    case BeforeWait => 1
    case SetIdle => 2
    case Running => 3
    case Awake => 4
    case Notified => 5
  }

  function CallRank(call: Option<Call>, n: nat): nat {
    match call
    case None => 0
    case Some(c) =>
      match c.pc
      case Scanning(i) => 15 + if i < n then n - i else 0
      case Storing(_, k) => if k < FIELDS then 14 - k else 10
      case Notifying(_) => 9
      case Unlocking(_) => 3
      case Marking(_) => 2
      case Registering(_) => 1
  }

  function RankSum(ws: seq<Worker>): nat {
    if ws == [] then 0 else RankSum(ws[..|ws| - 1]) + WorkerRank(ws[|ws| - 1])
  }

  lemma {:induction false} RankUpdate(ws: seq<Worker>, i: nat, w: Worker)
    requires i < |ws|
    ensures RankSum(ws[i := w]) + WorkerRank(ws[i]) == RankSum(ws) + WorkerRank(w)
  {
    var n := |ws| - 1;
    if i < n {
      RankUpdate(ws[..n], i, w);
      assert ws[i := w][..n] == ws[..n][i := w];
    } else {
      assert ws[i := w][..n] == ws[..n];
    }
  }

  function Rank(s: State): nat {
    CallRank(s.call, |s.workers|) + RankSum(s.workers)
  }

  lemma CallStepsRunOut(s: State)
    requires Inv(s) && s.call.Some? && StepCall(s).Some?
    ensures Rank(StepCall(s).value) < Rank(s)
  {
    var pc := s.call.value.pc;
    if !pc.Scanning? && !pc.Registering? {
      var w := StepCall(s).value.workers[pc.i];
      RankUpdate(s.workers, pc.i, w);
      assert WorkerInv(s, pc.i);
    }
  }

  /** Without new calls every step brings the pool closer to rest. */
  lemma StepsRunOut(s: State, step: Step)
    requires Inv(s) && !step.Begin? && Next(s, step).Some?
    ensures Rank(Next(s, step).value) < Rank(s)
  {
    if step.WorkerStep? {
      RankUpdate(s.workers, step.w, StepWorker(s.workers[step.w]).value);
    } else {
      CallStepsRunOut(s);
    }
  }

  /** A run without new calls ends: it has no more steps than the rank of its first state. */
  lemma {:induction false} RunsEnd(s: State, steps: seq<Step>)
    requires Inv(s) && After(s, steps).Some? && forall x :: x in steps ==> !x.Begin?
    ensures Inv(After(s, steps).value)
    ensures |steps| + Rank(After(s, steps).value) <= Rank(s)
  {
    if steps != [] {
      var n := |steps| - 1;
      assert steps[n] in steps;
      RunsEnd(s, steps[..n]);
      StepInv(After(s, steps[..n]).value, steps[n]);
      StepsRunOut(After(s, steps[..n]).value, steps[n]);
    }
  }

  /** A caller inside `new_work` can move, or waits for a worker that can move and whose
      step frees the lock. */
  lemma CallerNotStuck(n: nat, s: State)
    requires Reachable(n, s) && s.call.Some?
    ensures Next(s, CallStep).Some?
         || exists i :: 0 <= i < |s.workers| && Next(s, WorkerStep(i)).Some?
                        && Next(Next(s, WorkerStep(i)).value, CallStep).Some?
  {
    var pc := s.call.value.pc;
    if pc.Scanning? {
      ReachableWorker(n, s, 0);
    } else {
      ReachableWorker(n, s, pc.i);
      if Next(s, CallStep) == None {
        assert pc.Storing? && s.workers[pc.i].pc == BeforeWait;
        assert Next(s, WorkerStep(pc.i)).Some?;
        assert Next(Next(s, WorkerStep(pc.i)).value, CallStep).Some?;
      }
    }
  }

  // ---------------------------------------------------------------- who gets the job

  /** The flags that the scan of a call looks at during a run, in order: the first is that
      of worker 0, the second that of worker 1 and so on. */
  function Seen(s: State, steps: seq<Step>): seq<Flag> {
    if steps == [] then []
    else
      var n := |steps| - 1;
      Seen(s, steps[..n]) +
      match After(s, steps[..n])
      case None => []
      case Some(t) =>
        if steps[n] == CallStep && t.call.Some? && t.call.value.pc.Scanning? && t.call.value.pc.i < |t.workers|
        then [t.workers[t.call.value.pc.i].busy] else []
  }

  /** All were marked busy. */
  ghost predicate AllBusy(seen: seq<Flag>) {
    forall k :: 0 <= k < |seen| ==> seen[k] == Busy
  }

  /** The scan has stopped at the first worker that was not busy. */
  ghost predicate StoppedAt(seen: seq<Flag>, i: nat) {
    |seen| == i + 1 && seen[i] == NotBusy && AllBusy(seen[..i])
  }

  /** The call has ended without handing over the job: all workers were looked at and
      busy, or after busy ones a flag was met that does not exist. */
  ghost predicate RefusedBy(seen: seq<Flag>, n: nat) {
    (|seen| == n && AllBusy(seen)) || (0 < |seen| <= n && seen[|seen| - 1] == Unset && AllBusy(seen[..|seen| - 1]))
  }

  /** Where a call for the job stands after a run in which the scan has seen these flags. */
  ghost predicate CallProgress(s: State, job: Job, t: State, seen: seq<Flag>) {
    && |t.workers| == |s.workers|
    && match t.call
       case Some(c) =>
         && c.job == job && t.accepted == s.accepted
         && (match c.pc
             case Scanning(i) => |seen| == i <= |t.workers| && AllBusy(seen)
             case Storing(i, _) => i < |t.workers| && StoppedAt(seen, i)
             case Notifying(i) => i < |t.workers| && StoppedAt(seen, i)
             case Unlocking(i) => i < |t.workers| && StoppedAt(seen, i)
             case Marking(i) => i < |t.workers| && StoppedAt(seen, i)
             case Registering(i) => i < |t.workers| && StoppedAt(seen, i))
       case None =>
         || (t.accepted == s.accepted && RefusedBy(seen, |s.workers|))
         || (exists i :: 0 <= i < |s.workers| && StoppedAt(seen, i) && t.accepted == s.accepted + [(i, job)])
  }

  lemma ScanStep(s: State, job: Job, t: State, seen: seq<Flag>)
    requires CallProgress(s, job, t, seen) && t.call.Some? && t.call.value.pc.Scanning? && Next(t, CallStep).Some?
    ensures var i := t.call.value.pc.i;
            CallProgress(s, job, Next(t, CallStep).value, seen + if i < |t.workers| then [t.workers[i].busy] else [])
  {
    var i := t.call.value.pc.i;
    if i < |t.workers| {
      var after := seen + [t.workers[i].busy];
      assert after[..i] == seen;
    } else {
      assert seen + [] == seen;
    }
  }

  lemma OtherStep(s: State, job: Job, t: State, seen: seq<Flag>, step: Step)
    requires CallProgress(s, job, t, seen) && !step.Begin? && Next(t, step).Some?
    requires step == CallStep ==> t.call.Some? && !t.call.value.pc.Scanning?
    ensures CallProgress(s, job, Next(t, step).value, seen)
  {
  }

  /** In every run from the beginning of a call: the job is handed to the first worker in the
      list that is not marked busy when it is looked at, and the call is refused exactly if
      there is none, or a flag is met that does not exist. */
  lemma {:induction false} FirstFreeGetsJob(s: State, job: Job, steps: seq<Step>)
    requires s.call == Some(Call(job, Scanning(0))) && After(s, steps).Some? && forall x :: x in steps ==> !x.Begin?
    ensures CallProgress(s, job, After(s, steps).value, Seen(s, steps))
  {
    if steps != [] {
      var n := |steps| - 1;
      assert steps[n] in steps;
      FirstFreeGetsJob(s, job, steps[..n]);
      var t := After(s, steps[..n]).value;
      var seen := Seen(s, steps[..n]);
      if steps[n] == CallStep && t.call.Some? && t.call.value.pc.Scanning? {
        ScanStep(s, job, t, seen);
      } else {
        OtherStep(s, job, t, seen, steps[n]);
        assert seen + [] == seen;
      }
    }
  }

  /** As long as a call is looking for a worker, free ones stay free and every flag exists. */
  ghost predicate StillFree(s: State, t: State) {
    && |t.workers| == |s.workers|
    && (forall j :: 0 <= j < |s.workers| && s.workers[j].busy == NotBusy ==> t.workers[j].busy == NotBusy)
    && (forall j :: 0 <= j < |s.workers| && s.workers[j].busy != Unset ==> t.workers[j].busy != Unset)
  }

  /** What was free at the beginning of the call was seen as free. */
  ghost predicate SeenFree(s: State, seen: seq<Flag>) {
    && |seen| <= |s.workers|
    && (forall j :: 0 <= j < |seen| && s.workers[j].busy == NotBusy ==> seen[j] == NotBusy)
    && (forall j :: 0 <= j < |seen| && s.workers[j].busy != Unset ==> seen[j] != Unset)
  }

  lemma FlagStep(s: State, t: State, step: Step)
    requires StillFree(s, t) && Next(t, step).Some? && t.call.Some? && t.call.value.pc.Scanning?
    ensures StillFree(s, Next(t, step).value)
  {
  }

  lemma {:induction false} FreeIsSeen(s: State, job: Job, steps: seq<Step>)
    requires s.call == Some(Call(job, Scanning(0))) && After(s, steps).Some? && forall x :: x in steps ==> !x.Begin?
    ensures SeenFree(s, Seen(s, steps))
    ensures var t := After(s, steps).value;
            t.call.Some? && t.call.value.pc.Scanning? ==> StillFree(s, t)
  {
    if steps != [] {
      var n := |steps| - 1;
      assert steps[n] in steps;
      FreeIsSeen(s, job, steps[..n]);
      FirstFreeGetsJob(s, job, steps[..n]);
      var t := After(s, steps[..n]).value;
      if IsScanning(t) {
        FlagStep(s, t, steps[n]);
      } else {
        StaysBeyond(t, steps[n]);
      }
      LookStep(s, t, Seen(s, steps[..n]), steps[n]);
    }
  }

  lemma LookStep(s: State, t: State, seen: seq<Flag>, step: Step)
    requires SeenFree(s, seen) && |t.workers| == |s.workers|
    requires t.call.Some? && t.call.value.pc.Scanning? ==> StillFree(s, t) && |seen| == t.call.value.pc.i
    ensures step == CallStep && t.call.Some? && t.call.value.pc.Scanning? && t.call.value.pc.i < |t.workers| ==>
              SeenFree(s, seen + [t.workers[t.call.value.pc.i].busy])
    ensures SeenFree(s, seen + [])
  {
    assert seen + [] == seen;
  }

  predicate IsScanning(t: State) {
    t.call.Some? && t.call.value.pc.Scanning?
  }

  /** The scan does not begin again. */
  lemma StaysBeyond(t: State, step: Step)
    requires Next(t, step).Some? && !step.Begin? && !IsScanning(t)
    ensures !IsScanning(Next(t, step).value)
  {
  }

  /** If some worker is free when the call begins, and every flag exists, no run refuses the
      call: when it has ended, the job was accepted, by a worker that stands in the list no
      later than any that was free at the beginning. */
  lemma NotRefused(n: nat, s: State, job: Job, steps: seq<Step>, j: nat)
    requires Reachable(n, s) && s.call == Some(Call(job, Scanning(0))) && After(s, steps).Some?
    requires forall x :: x in steps ==> !x.Begin?
    requires j < |s.workers| && s.workers[j].busy == NotBusy
    requires forall i :: 0 <= i < |s.workers| ==> s.workers[i].busy != Unset
    ensures var t := After(s, steps).value;
            t.call == None ==> exists i :: 0 <= i <= j && t.accepted == s.accepted + [(i, job)]
  {
    FirstFreeGetsJob(s, job, steps);
    FreeIsSeen(s, job, steps);
    var t, seen := After(s, steps).value, Seen(s, steps);
    if t.call == None {
      FreeStopsScan(s, seen, j);
      var i :| 0 <= i < |s.workers| && StoppedAt(seen, i) && t.accepted == s.accepted + [(i, job)];
      StopsBefore(s, seen, i, j);
    }
  }

  lemma FreeStopsScan(s: State, seen: seq<Flag>, j: nat)
    requires SeenFree(s, seen) && j < |s.workers| && s.workers[j].busy == NotBusy
    requires forall i :: 0 <= i < |s.workers| ==> s.workers[i].busy != Unset
    ensures !RefusedBy(seen, |s.workers|)
  {
    if |seen| == |s.workers| {
      assert seen[j] == NotBusy;
    }
  }

  lemma StopsBefore(s: State, seen: seq<Flag>, i: nat, j: nat)
    requires SeenFree(s, seen) && StoppedAt(seen, i) && j < |s.workers| && s.workers[j].busy == NotBusy
    ensures i <= j
  {
    assert forall k :: 0 <= k < i ==> seen[..i][k] == seen[k];
  }

  /** A call that has ended was refused exactly if the scan saw only busy workers, all of
      them, or met a flag that does not exist; otherwise its job was accepted once. */
  lemma RefusedExactly(s: State, job: Job, steps: seq<Step>)
    requires s.call == Some(Call(job, Scanning(0))) && After(s, steps).Some? && forall x :: x in steps ==> !x.Begin?
    requires After(s, steps).value.call == None
    ensures var t, seen := After(s, steps).value, Seen(s, steps);
            && (t.accepted == s.accepted <==> RefusedBy(seen, |s.workers|))
            && (t.accepted != s.accepted <==> exists i :: 0 <= i < |s.workers| && StoppedAt(seen, i)
                                                            && t.accepted == s.accepted + [(i, job)])
  {
    FirstFreeGetsJob(s, job, steps);
    var t, seen := After(s, steps).value, Seen(s, steps);
    forall i | 0 <= i < |s.workers| && t.accepted == s.accepted + [(i, job)] ensures t.accepted != s.accepted {
      assert |t.accepted| == |s.accepted| + 1;
    }
    forall i | 0 <= i < |s.workers| && StoppedAt(seen, i) ensures !RefusedBy(seen, |s.workers|) {
      assert seen[i] == NotBusy;
    }
  }

  /** If no worker moves meanwhile, the scan sees the flags as they stand. */
  lemma {:induction false} SeenAsTheyStand(s: State, job: Job, steps: seq<Step>)
    requires s.call == Some(Call(job, Scanning(0))) && After(s, steps).Some? && forall x :: x in steps ==> x == CallStep
    ensures |Seen(s, steps)| <= |s.workers| && forall k :: 0 <= k < |Seen(s, steps)| ==> Seen(s, steps)[k] == s.workers[k].busy
    ensures var t := After(s, steps).value;
            IsScanning(t) ==> t.workers == s.workers
  {
    if steps != [] {
      var n := |steps| - 1;
      assert steps[n] in steps;
      assert forall x :: x in steps[..n] ==> x in steps;
      SeenAsTheyStand(s, job, steps[..n]);
      FirstFreeGetsJob(s, job, steps[..n]);
      SeenStep(s, After(s, steps[..n]).value, Seen(s, steps[..n]));
    }
  }

  lemma SeenStep(s: State, t: State, seen: seq<Flag>)
    requires |t.workers| == |s.workers| && |seen| <= |s.workers| && Next(t, CallStep).Some?
    requires forall k :: 0 <= k < |seen| ==> seen[k] == s.workers[k].busy
    requires IsScanning(t) ==> t.workers == s.workers && |seen| == t.call.value.pc.i
    ensures var i, u := if IsScanning(t) then t.call.value.pc.i else |t.workers|, Next(t, CallStep).value;
            && |u.workers| == |s.workers|
            && (IsScanning(u) ==> u.workers == s.workers)
            && var seen' := seen + if i < |t.workers| then [t.workers[i].busy] else [];
            |seen'| <= |s.workers| && forall k :: 0 <= k < |seen'| ==> seen'[k] == s.workers[k].busy
  {
    if !IsScanning(t) {
      StaysBeyond(t, CallStep);
    }
  }

  /** Then the job goes to the worker of least index whose flag is False, and the call is
      refused exactly if all workers are busy. */
  lemma LeastFreeGetsJob(s: State, job: Job, steps: seq<Step>)
    requires s.call == Some(Call(job, Scanning(0))) && After(s, steps).Some? && forall x :: x in steps ==> x == CallStep
    requires After(s, steps).value.call == None && forall i :: 0 <= i < |s.workers| ==> s.workers[i].busy != Unset
    ensures var t := After(s, steps).value;
            && (t.accepted == s.accepted <==> forall i :: 0 <= i < |s.workers| ==> s.workers[i].busy == Busy)
            && forall i :: 0 <= i < |s.workers| ==>
                 (t.accepted == s.accepted + [(i, job)]
                  <==> s.workers[i].busy == NotBusy && forall k :: 0 <= k < i ==> s.workers[k].busy == Busy)
  {
    var t, seen := After(s, steps).value, Seen(s, steps);
    assert forall x :: x in steps ==> !x.Begin?;
    SeenAsTheyStand(s, job, steps);
    RefusedExactly(s, job, steps);
    if t.accepted != s.accepted {
      var i :| 0 <= i < |s.workers| && StoppedAt(seen, i) && t.accepted == s.accepted + [(i, job)];
      assert s.workers[i].busy == NotBusy;
      forall k | 0 <= k < i ensures s.workers[k].busy == Busy {
        assert seen[..i][k] == seen[k] == s.workers[k].busy;
      }
      forall k | 0 <= k < |s.workers| && t.accepted == s.accepted + [(k, job)] ensures k == i {
        assert t.accepted[|s.accepted|] == (k, job) == (i, job);
      }
    } else {
      AllSeenBusy(s, seen);
      forall k | 0 <= k < |s.workers| ensures t.accepted != s.accepted + [(k, job)] {
        assert |s.accepted + [(k, job)]| == |s.accepted| + 1;
      }
    }
  }

  lemma AllSeenBusy(s: State, seen: seq<Flag>)
    requires RefusedBy(seen, |s.workers|) && forall k :: 0 <= k < |seen| <= |s.workers| ==> seen[k] == s.workers[k].busy
    requires forall i :: 0 <= i < |s.workers| ==> s.workers[i].busy != Unset
    ensures forall i :: 0 <= i < |s.workers| ==> s.workers[i].busy == Busy
  {
    assert 0 < |seen| ==> seen[|seen| - 1] == s.workers[|seen| - 1].busy;
    forall i | 0 <= i < |s.workers| ensures s.workers[i].busy == Busy {
      assert seen[i] == Busy;
    }
  }

  // ---------------------------------------------------------------- workers that are lost

  /** About to wait or waiting, but marked busy, and no call is on its way to hand the
      worker a job: no caller will ever choose it. */
  ghost predicate Lost(s: State, i: nat) {
    && i < |s.workers| && Idle(s.workers[i]) && s.workers[i].busy == Busy
    && (s.call.Some? && !s.call.value.pc.Scanning? && !s.call.value.pc.Registering? ==> s.call.value.pc.i != i)
  }

  /** A lost worker stays lost; only the call in hand is still entered for it. */
  lemma LostForever(s: State, step: Step, i: nat)
    requires Lost(s, i) && Next(s, step).Some?
    ensures Lost(Next(s, step).value, i)
    ensures Of(Next(s, step).value.accepted, i)
         == Of(s.accepted, i) + if step.CallStep? && s.call.value.pc == Registering(i) then [s.call.value.job] else []
  {
    if step.CallStep? && s.call.value.pc.Registering? {
      OfAppend(s.accepted, (s.call.value.pc.i, s.call.value.job), i);
    }
  }

  /** Over whole runs: apart from the call in hand, a lost worker gets no job. */
  lemma {:induction false} LostGetsNothing(s: State, steps: seq<Step>, i: nat)
    requires Lost(s, i) && (s.call.Some? ==> s.call.value.pc != Registering(i)) && After(s, steps).Some?
    ensures var t := After(s, steps).value;
            && Lost(t, i) && (t.call.Some? ==> t.call.value.pc != Registering(i))
            && Of(t.accepted, i) == Of(s.accepted, i)
  {
    if steps != [] {
      var front, step := steps[..|steps| - 1], steps[|steps| - 1];
      LostGetsNothing(s, front, i);
      LostForever(After(s, front).value, step, i);
    }
  }

  /** When all workers are lost, no later call is accepted. */
  lemma {:induction false} AllLost(s: State, steps: seq<Step>)
    requires (s.call.Some? ==> s.call.value.pc.Scanning?) && forall i :: 0 <= i < |s.workers| ==> Lost(s, i)
    requires After(s, steps).Some?
    ensures var t := After(s, steps).value;
            && t.accepted == s.accepted && |t.workers| == |s.workers|
            && (t.call.Some? ==> t.call.value.pc.Scanning?)
            && forall i :: 0 <= i < |t.workers| ==> Lost(t, i)
  {
    if steps != [] {
      var front := steps[..|steps| - 1];
      AllLost(s, front);
      var t := After(s, front).value;
      var step := steps[|steps| - 1];
      var u := Next(t, step).value;
      if t.call.Some? && t.call.value.pc.i < |t.workers| {
        assert Lost(t, t.call.value.pc.i);
      }
      forall i | 0 <= i < |u.workers| ensures Lost(u, i) {
        LostForever(t, step, i);
      }
    }
  }

  lemma ReachableStep(n: nat, s: State, step: Step, t: State)
    requires Reachable(n, s) && Next(s, step) == Some(t)
    ensures Reachable(n, t)
  {
    var steps :| After(Initial(n), steps) == Some(s);
    assert (steps + [step])[..|steps|] == steps;
    assert After(Initial(n), steps + [step]) == Some(t);
  }

  /** Marked busy, but the worker has still to go through the top of its loop. */
  ghost predicate WillReset(s: State, i: nat) {
    i < |s.workers| && !Idle(s.workers[i]) && s.workers[i].busy == Busy
  }

  /** Free for the next caller: the flag is False and the worker is about to wait. */
  ghost predicate Usable(s: State, i: nat) {
    i < |s.workers| && Idle(s.workers[i]) && s.workers[i].busy == NotBusy
  }

  /** A caller marks the worker it woke as busy after the fact. The worker is lost exactly
      when it has already reset the flag for its next wait; if it has not, though the job
      may be finished, it will. */
  lemma MarkingLoses(n: nat, s: State)
    requires Reachable(n, s) && s.call.Some? && s.call.value.pc.Marking?
    ensures s.call.value.pc.i < |s.workers| && Next(s, CallStep).Some?
    ensures var i, t := s.call.value.pc.i, Next(s, CallStep).value;
            && (Lost(t, i) <==> Idle(s.workers[i]))
            && (WillReset(t, i) <==> !Idle(s.workers[i]))
  {
    ReachableWorker(n, s, s.call.value.pc.i);
  }

  /** Such a worker is left as it is until it resets the flag itself. */
  lemma ResetStep(s: State, step: Step, i: nat)
    requires Inv(s) && WillReset(s, i) && Next(s, step).Some?
    ensures WillReset(Next(s, step).value, i)
         || (step == WorkerStep(i) && s.workers[i].pc == SetIdle && Usable(Next(s, step).value, i))
  {
    assert WorkerInv(s, i);
  }

  /** In every run in which it does not stay so to the end, it becomes usable again. */
  lemma {:induction false} MarkedBecomesUsable(s: State, steps: seq<Step>, i: nat)
    requires Inv(s) && WillReset(s, i) && After(s, steps).Some?
    ensures Inv(After(s, steps).value)
    ensures WillReset(After(s, steps).value, i)
         || exists k :: 0 < k <= |steps| && After(s, steps[..k]).Some? && Usable(After(s, steps[..k]).value, i)
  {
    if steps != [] {
      var n := |steps| - 1;
      MarkedBecomesUsable(s, steps[..n], i);
      var t := After(s, steps[..n]).value;
      StepInv(t, steps[n]);
      if WillReset(t, i) {
        ResetStep(t, steps[n], i);
        assert steps[..|steps|] == steps;
      } else {
        var k :| 0 < k <= n && After(s, steps[..n][..k]).Some? && Usable(After(s, steps[..n][..k]).value, i);
        assert steps[..n][..k] == steps[..k];
      }
    }
  }

  /** And no run comes to rest before that. */
  lemma RestComesLater(s: State, i: nat)
    requires Inv(s) && WillReset(s, i)
    ensures !Quiescent(s)
  {
    assert WorkerInv(s, i);
    if s.call == None {
      assert Next(s, WorkerStep(i)).Some?;
    }
  }

  lemma {:induction false} AfterFirst(s: State, first: Step, steps: seq<Step>)
    requires Next(s, first).Some?
    ensures After(s, [first] + steps) == After(Next(s, first).value, steps)
  {
    var all := [first] + steps;
    if steps == [] {
      assert all[..0] == [] && After(s, []) == Some(s);
    } else {
      AfterFirst(s, first, steps[..|steps| - 1]);
      assert all[..|all| - 1] == [first] + steps[..|steps| - 1];
    }
  }

  ghost predicate CanBecomeUsable(s: State, i: nat) {
    exists steps :: After(s, steps).Some? && Usable(After(s, steps).value, i)
  }

  /** A worker that is not lost becomes usable by its own steps. */
  lemma {:induction false} OwnSteps(s: State, i: nat)
    requires Inv(s) && s.call == None && i < |s.workers| && !Lost(s, i)
    ensures CanBecomeUsable(s, i)
    decreases WorkerRank(s.workers[i])
  {
    if Usable(s, i) {
      assert After(s, []) == Some(s);
    } else {
      var step := WorkerStep(i);
      OwnStep(s, i);
      var t := Next(s, step).value;
      StepInv(s, step);
      OwnSteps(t, i);
      var steps :| After(t, steps).Some? && Usable(After(t, steps).value, i);
      AfterFirst(s, step, steps);
      assert After(s, [step] + steps).Some?;
    }
  }

  /** It can move, and comes closer to its wait. */
  lemma OwnStep(s: State, i: nat)
    requires Inv(s) && s.call == None && i < |s.workers| && !Lost(s, i) && !Usable(s, i)
    ensures Next(s, WorkerStep(i)).Some?
    ensures var t := Next(s, WorkerStep(i)).value;
            && t.call == None && |t.workers| == |s.workers| && !Lost(t, i)
            && WorkerRank(t.workers[i]) < WorkerRank(s.workers[i])
  {
    assert WorkerInv(s, i);
  }

  /** Between calls, a worker is lost exactly when no run makes it usable again. */
  lemma LostMeaning(n: nat, s: State, i: nat)
    requires Reachable(n, s) && s.call == None && i < |s.workers|
    ensures Lost(s, i) <==> !CanBecomeUsable(s, i)
  {
    ReachableWorker(n, s, i);
    if Lost(s, i) {
      forall steps | After(s, steps).Some? ensures !Usable(After(s, steps).value, i) {
        LostGetsNothing(s, steps, i);
      }
    } else {
      OwnSteps(s, i);
    }
  }

  /** A pool of one worker. */
  ghost function Single(w: Worker, call: Option<Call>, accepted: seq<(nat, Job)>, runs: seq<(nat, Job)>): State {
    State([w], call, accepted, runs)
  }

  lemma SingleWorkerStep(w: Worker, call: Option<Call>, accepted: seq<(nat, Job)>, runs: seq<(nat, Job)>)
    requires Reachable(1, Single(w, call, accepted, runs)) && StepWorker(w).Some?
    ensures Reachable(1, Single(StepWorker(w).value, call, accepted, if w.pc == Awake then runs + [(0, w.slots)] else runs))
  {
    assert [w][0 := StepWorker(w).value] == [StepWorker(w).value];
    ReachableStep(1, Single(w, call, accepted, runs), WorkerStep(0),
                  Single(StepWorker(w).value, call, accepted, if w.pc == Awake then runs + [(0, w.slots)] else runs));
  }

  /** One step of the caller on the only worker, from pc to pc'. */
  lemma SingleCallStep(w: Worker, job: Job, pc: CallPc, w': Worker, pc': CallPc, runs: seq<(nat, Job)>)
    requires Reachable(1, Single(w, Some(Call(job, pc)), [], runs))
    requires StepCall(Single(w, Some(Call(job, pc)), [], runs)).Some?
    requires var t := StepCall(Single(w, Some(Call(job, pc)), [], runs)).value;
             && t.call == Some(Call(job, pc')) && t.workers[0] == w' && t.accepted == [] && t.runs == runs
             && |t.workers| == 1
    ensures Reachable(1, Single(w', Some(Call(job, pc')), [], runs))
  {
    var t := StepCall(Single(w, Some(Call(job, pc)), [], runs)).value;
    assert t.workers == [w'];
    ReachableStep(1, Single(w, Some(Call(job, pc)), [], runs), CallStep, Single(w', Some(Call(job, pc')), [], runs));
  }

  lemma SingleScanned(job: Job)
    requires |job| == FIELDS
    ensures Reachable(1, Single(Worker(Waiting, NotBusy, Free, [0, 0, 0, 0]), Some(Call(job, Storing(0, 0))), [], []))
  {
    var w := Worker(SetIdle, Unset, HeldByWorker, [0, 0, 0, 0]);
    assert Initial(1).workers == [w] && After(Initial(1), []) == Some(Initial(1));
    SingleWorkerStep(w, None, [], []);
    w := w.(busy := NotBusy, pc := BeforeWait);
    SingleWorkerStep(w, None, [], []);
    w := w.(lock := Free, pc := Waiting);
    ReachableStep(1, Single(w, None, [], []), Begin(job), Single(w, Some(Call(job, Scanning(0))), [], []));
    SingleCallStep(w, job, Scanning(0), w, Storing(0, 0), []);
  }

  lemma SingleStore(job: Job, slots: Job, k: nat)
    requires |job| == |slots| == FIELDS && k < FIELDS
    requires Reachable(1, Single(Worker(Waiting, NotBusy, Free, slots), Some(Call(job, Storing(0, k))), [], []))
    ensures Reachable(1, Single(Worker(Waiting, NotBusy, Free, slots[k := job[k]]), Some(Call(job, Storing(0, k + 1))), [], []))
  {
    var w := Worker(Waiting, NotBusy, Free, slots);
    SingleCallStep(w, job, Storing(0, k), w.(slots := slots[k := job[k]]), Storing(0, k + 1), []);
  }

  lemma SingleStored(job: Job)
    requires |job| == FIELDS
    ensures Reachable(1, Single(Worker(Waiting, NotBusy, Free, job), Some(Call(job, Storing(0, 4))), [], []))
  {
    var slots := [0, 0, 0, 0];
    SingleScanned(job);
    SingleStore(job, slots, 0);
    slots := slots[0 := job[0]];
    SingleStore(job, slots, 1);
    slots := slots[1 := job[1]];
    SingleStore(job, slots, 2);
    slots := slots[2 := job[2]];
    SingleStore(job, slots, 3);
    slots := slots[3 := job[3]];
    assert slots == job;
  }

  /** Storing the job in a waiting, idle worker and notifying it. */
  lemma SingleHandOver(job: Job)
    requires |job| == FIELDS
    ensures Reachable(1, Single(Worker(Notified, NotBusy, Free, job), Some(Call(job, Marking(0))), [], []))
  {
    var w := Worker(Waiting, NotBusy, Free, job);
    SingleStored(job);
    SingleCallStep(w, job, Storing(0, 4), w.(lock := HeldByCaller), Notifying(0), []);
    w := w.(lock := HeldByCaller);
    SingleCallStep(w, job, Notifying(0), w.(pc := Notified), Unlocking(0), []);
    w := w.(pc := Notified);
    SingleCallStep(w, job, Unlocking(0), w.(lock := Free), Marking(0), []);
  }

  /** The worker has run the job, but not yet reset its flag, before the caller goes on. */
  lemma SingleDoneJob(job: Job)
    requires |job| == FIELDS
    ensures Reachable(1, Single(Worker(SetIdle, NotBusy, HeldByWorker, job), Some(Call(job, Marking(0))), [], [(0, job)]))
  {
    var call := Some(Call(job, Marking(0)));
    SingleHandOver(job);
    SingleWorkerStep(Worker(Notified, NotBusy, Free, job), call, [], []);
    SingleWorkerStep(Worker(Awake, NotBusy, HeldByWorker, job), call, [], []);
    assert [] + [(0, job)] == [(0, job)];
    SingleWorkerStep(Worker(Running, NotBusy, HeldByWorker, job), call, [], [(0, job)]);
  }

  /** A finished job alone does not lose the worker. */
  lemma DoneJobKeepsWorker(job: Job)
    requires |job| == FIELDS
    ensures exists s :: Reachable(1, s) && s.call == Some(Call(job, Marking(0))) && s.runs == [(0, job)]
                        && Next(s, CallStep).Some? && WillReset(Next(s, CallStep).value, 0)
  {
    SingleDoneJob(job);
    var s := Single(Worker(SetIdle, NotBusy, HeldByWorker, job), Some(Call(job, Marking(0))), [], [(0, job)]);
    MarkingLoses(1, s);
    assert Reachable(1, s) && s.call == Some(Call(job, Marking(0)));
  }

  /** The worker waits again before the caller goes on. */
  lemma SingleFastJob(job: Job)
    requires |job| == FIELDS
    ensures Reachable(1, Single(Worker(Waiting, NotBusy, Free, job), Some(Call(job, Marking(0))), [], [(0, job)]))
  {
    var call := Some(Call(job, Marking(0)));
    SingleDoneJob(job);
    SingleWorkerStep(Worker(SetIdle, NotBusy, HeldByWorker, job), call, [], [(0, job)]);
    SingleWorkerStep(Worker(BeforeWait, NotBusy, HeldByWorker, job), call, [], [(0, job)]);
  }

  /** A pool of one worker whose first job is done before the caller marks the worker: the
      job was run, and the pool accepts nothing ever after. */
  lemma FastJobLosesWorker(job: Job)
    requires |job| == FIELDS
    ensures var s := Single(Worker(Waiting, Busy, Free, job), None, [(0, job)], [(0, job)]);
            && Reachable(1, s) && Lost(s, 0)
            && forall steps :: After(s, steps).Some? ==> After(s, steps).value.accepted == [(0, job)]
  {
    var r := [(0, job)];
    var w := Worker(Waiting, Busy, Free, job);
    SingleFastJob(job);
    SingleCallStep(Worker(Waiting, NotBusy, Free, job), job, Marking(0), w, Registering(0), r);
    var s := Single(w, None, r, r);
    assert [] + [(0, job)] == r;
    ReachableStep(1, Single(w, Some(Call(job, Registering(0))), [], r), CallStep, s);
    forall steps | After(s, steps).Some? ensures After(s, steps).value.accepted == r {
      AllLost(s, steps);
    }
  }
}
