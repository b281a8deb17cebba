/** The batch loop of NodesAvailability.exec_task in tasks.py, interleaved with the
    supervisor that may mark the task as hung through get_running_status. */
module BatchTask {
  import opened Prelude

  /** Where the task stands in its loop. */
  datatype Pc =
    | Start          // about to set the three lists and the index
    | FetchFirst     // node_id = get_next_node_id(0)
    | Test           // while node_id is not None: pending_nodes.remove(node_id)
    | Query          // looks the node up
    | FetchNext      // index += 1; node_id = get_next_node_id(index)
    | SetCurrent
    | SetStartTime
    | Refresh
    | AppendDone
    | Done

  /** Where the supervisor stands in get_running_status, once it found the task too slow. */
  datatype SupervisorPc = Watching | Replacing | Marking | Handing

  /** The fields of the task object; `nodeId` and `found` are locals of exec_task. The last
      five are history: the nodes taken from pending_nodes, which of them were found, the
      number taken when exc_node_ids was first replaced, whether another node had then been
      fetched already, and the list handed to the supervisor. */
  datatype State = State(
    pc: Pc, index: nat, nodeId: Option<int>, found: bool,
    completed: seq<int>, pending: seq<int>, exc: seq<int>, current: Option<int>, started: bool, markHung: bool,
    supervisor: SupervisorPc,
    taken: seq<int>, foundLog: seq<bool>, cut: Option<nat>, fetched: bool, handed: Option<seq<int>>)

  /** `Work(found)`: one step of the task, whose query finds the node or not; `Fail`: an
      exception leaves the loop; `Supervise`: one step of the supervisor. */
  datatype Step = Work(found: bool) | Fail | Supervise

  const Initial := State(Start, 0, None, false, [], [], [], None, false, false, Watching, [], [], None, false, None)

  /** `get_next_node_id` */
  function NextNodeId(exc: seq<int>, index: nat): Option<int> {
    if index < |exc| then Some(exc[index]) else None
  }

  /** `l.remove(x)` */
  function RemoveFirst(l: seq<int>, x: int): seq<int> {
    if l == [] then [] else if l[0] == x then l[1..] else [l[0]] + RemoveFirst(l[1..], x)
  }

  function WorkStep(s: State, ids: seq<int>, found: bool): Option<State> {
    match s.pc
    case Start => Some(s.(completed := [], pending := ids, exc := ids, index := 0, pc := FetchFirst))
    case FetchFirst => Some(s.(nodeId := NextNodeId(s.exc, s.index), pc := Test))
    case Test =>
      if s.nodeId == None then Some(s.(pc := Done))
      else Some(s.(pending := RemoveFirst(s.pending, s.nodeId.value), taken := s.taken + [s.nodeId.value], pc := Query))
    case Query => Some(s.(found := found, foundLog := s.foundLog + [found], pc := FetchNext))
    case FetchNext =>
      // the node just looked up stays in `current` only if it was found
      var next := s.(index := s.index + 1, nodeId := NextNodeId(s.exc, s.index + 1));
      Some(next.(pc := if s.found then SetCurrent else Test))
    case SetCurrent => if s.taken == [] then None else Some(s.(current := Some(s.taken[|s.taken| - 1]), pc := SetStartTime))
    case SetStartTime => Some(s.(started := true, pc := Refresh))
    case Refresh => Some(s.(pc := AppendDone))
    case AppendDone => if s.taken == [] then None else Some(s.(completed := s.completed + [s.taken[|s.taken| - 1]], pc := Test))
    case Done => None
  }

  /** A node id was fetched and is not yet removed from pending_nodes. */
  predicate HasFetched(s: State) {
    s.nodeId.Some? && (s.pc == SetCurrent || s.pc == SetStartTime || s.pc == Refresh || s.pc == AppendDone || s.pc == Test)
  }

  function SuperviseStep(s: State): Option<State> {
    match s.supervisor
    case Watching => if s.started then Some(s.(supervisor := Replacing)) else None
    case Replacing =>
      if s.current == None then None
      else
        var t := s.(exc := [s.current.value], supervisor := Marking);
        Some(if s.cut == None then t.(cut := Some(|s.taken|), fetched := HasFetched(s)) else t)
    case Marking => Some(s.(markHung := true, supervisor := Handing))
    case Handing => Some(s.(handed := Some(s.pending), supervisor := Watching))
  }

  function Next(s: State, ids: seq<int>, step: Step): Option<State> {
    match step
    case Work(found) => WorkStep(s, ids, found)
    case Fail => if s.pc == Query || s.pc == FetchNext then Some(s.(pc := Done)) else None
    case Supervise => SuperviseStep(s)
  }

  function After(ids: seq<int>, steps: seq<Step>): Option<State> {
    if steps == [] then Some(Initial)
    else
      match After(ids, steps[..|steps| - 1])
      case None => None
      case Some(s) => Next(s, ids, steps[|steps| - 1])
  }

  // ---------------------------------------------------------------- invariant

  /** The ids whose flag is set. */
  function Select(ids: seq<int>, flags: seq<bool>): seq<int>
    requires |flags| <= |ids|
  {
    if flags == [] then []
    else
      var n := |flags| - 1;
      Select(ids, flags[..n]) + (if flags[n] then [ids[n]] else [])
  }

  /** The node that was found and is not yet listed as completed. */
  function InProgress(s: State): seq<int> {
    if s.taken != [] && s.found
       && (s.pc == FetchNext || s.pc == SetCurrent || s.pc == SetStartTime || s.pc == Refresh || s.pc == AppendDone)
    then [s.taken[|s.taken| - 1]] else []
  }

  /** How the lists, the index and the fetched id belong together. */
  ghost predicate Loop(s: State, ids: seq<int>) {
    && |s.taken| <= |ids| && s.taken == ids[..|s.taken|] && s.pending == ids[|s.taken|..]
    && (s.cut == None ==> s.exc == ids)
    && (s.cut.Some? ==> |s.exc| == 1 && 1 <= s.cut.value <= |s.taken|)
    && (s.pc == FetchFirst ==> s.index == 0 && s.taken == [])
    && (s.pc == Query || s.pc == FetchNext ==> s.index + 1 == |s.taken|)
    && (s.pc == SetCurrent || s.pc == SetStartTime || s.pc == Refresh || s.pc == AppendDone || s.pc == Test ==>
         s.index == |s.taken|
         && (s.nodeId.Some? ==> s.index < |ids| && s.nodeId.value == ids[s.index])
         && (s.nodeId == None && s.cut == None ==> s.index == |ids|))
  }

  /** After the replacement at most the one node already fetched is taken. */
  ghost predicate Cut(s: State) {
    s.cut.Some? ==>
      && |s.taken| <= s.cut.value + (if s.fetched then 1 else 0)
      && (HasFetched(s) ==> s.fetched && |s.taken| == s.cut.value)
      && (s.fetched && !HasFetched(s) ==> |s.taken| == s.cut.value + 1)
  }

  ghost predicate Log(s: State) {
    && |s.foundLog| <= |s.taken| <= |s.foundLog| + 1
    && (s.pc != Query && s.pc != Done ==> |s.foundLog| == |s.taken|)
    && (s.pc == Query ==> |s.foundLog| + 1 == |s.taken|)
    && (s.pc != Start && s.pc != Done ==> s.completed + InProgress(s) == Select(s.taken, s.foundLog))
    && (s.pc == FetchNext && s.foundLog != [] ==> s.found == s.foundLog[|s.foundLog| - 1])
    && (s.pc == SetCurrent || s.pc == SetStartTime || s.pc == Refresh || s.pc == AppendDone ==> s.found)
  }

  ghost predicate Inv(s: State, ids: seq<int>) {
    && (s.pc == Start ==> s == Initial)
    && (s.pc != Start ==> Loop(s, ids) && Log(s))
    && (s.pc != Start && s.pc != Done ==> Cut(s))
    && (s.cut.Some? ==> |s.taken| <= s.cut.value + (if s.fetched then 1 else 0))
    && Supervision(s)
  }

  /** The supervisor acts only after a node became current; marking follows replacing. */
  ghost predicate Supervision(s: State) {
    && (s.started || s.pc == SetStartTime || s.supervisor == Replacing ==> s.current.Some?)
    && (s.current.Some? ==> |s.taken| >= 1)
    && (s.markHung || s.supervisor == Marking || s.supervisor == Handing ==> s.cut.Some?)
    && (s.supervisor == Handing || s.handed.Some? ==> s.markHung)
    && (s.handed.Some? ==> Shrunk(s.pending, s.handed.value, s.taken, s.cut))
  }

  /** The pending list is the one handed over, or that without its head, which was the one
      node taken after the replacement. */
  ghost predicate Shrunk(pending: seq<int>, handed: seq<int>, taken: seq<int>, cut: Option<nat>) {
    || pending == handed
    || (handed != [] && pending == handed[1..] && cut.Some? && |taken| == cut.value + 1)
  }

  lemma StartInv(s: State, ids: seq<int>)
    requires Inv(s, ids) && s.pc == Start
    ensures Inv(WorkStep(s, ids, false).value, ids) && Inv(WorkStep(s, ids, true).value, ids)
  {
    assert ids[..0] == [] && ids[0..] == ids && Select([], []) == [];
  }

  lemma TestInv(s: State, ids: seq<int>, found: bool)
    requires Inv(s, ids) && s.pc == Test
    ensures Inv(WorkStep(s, ids, found).value, ids)
  {
    if s.nodeId.Some? {
      TakeNext(s, ids);
      SelectLonger(s.taken, s.nodeId.value, s.foundLog);
    }
  }

  lemma QueryInv(s: State, ids: seq<int>, found: bool)
    requires Inv(s, ids) && s.pc == Query
    ensures Inv(WorkStep(s, ids, found).value, ids)
  {
    SelectLast(s.taken, s.foundLog, found);
    assert s.completed + [] == s.completed;
  }

  lemma FetchInv(s: State, ids: seq<int>, found: bool)
    requires Inv(s, ids) && (s.pc == FetchFirst || s.pc == FetchNext)
    ensures Inv(WorkStep(s, ids, found).value, ids)
  {
    assert s.completed + [] == s.completed;
  }

  lemma CurrentInv(s: State, ids: seq<int>, found: bool)
    requires Inv(s, ids) && (s.pc == SetCurrent || s.pc == SetStartTime || s.pc == Refresh)
    requires WorkStep(s, ids, found).Some?
    ensures Inv(WorkStep(s, ids, found).value, ids)
  {
  }

  lemma AppendInv(s: State, ids: seq<int>, found: bool)
    requires Inv(s, ids) && s.pc == AppendDone && WorkStep(s, ids, found).Some?
    ensures Inv(WorkStep(s, ids, found).value, ids)
  {
    var last := [s.taken[|s.taken| - 1]];
    assert (s.completed + last) + [] == s.completed + last;
  }

  lemma FirstReplaceInv(s: State, ids: seq<int>)
    requires Inv(s, ids) && s.supervisor == Replacing && s.current.Some? && s.cut == None
    ensures Inv(SuperviseStep(s).value, ids)
  {
    var t := SuperviseStep(s).value;
    FirstReplaceLoop(s, ids);
    FirstReplaceCut(s, ids);
    SameLog(s, t);
    assert Supervision(t);
  }

  lemma FirstReplaceLoop(s: State, ids: seq<int>)
    requires Loop(s, ids) && s.supervisor == Replacing && s.current.Some? && s.cut == None && |s.taken| >= 1
    ensures Loop(SuperviseStep(s).value, ids)
  {
  }

  lemma FirstReplaceCut(s: State, ids: seq<int>)
    requires s.supervisor == Replacing && s.current.Some? && s.cut == None
    ensures Cut(SuperviseStep(s).value)
  {
  }

  lemma SameLog(s: State, t: State)
    requires t.pc == s.pc && t.found == s.found && t.completed == s.completed && t.taken == s.taken && t.foundLog == s.foundLog
    ensures Log(s) ==> Log(t)
  {
  }

  lemma NextReplaceInv(s: State, ids: seq<int>)
    requires Inv(s, ids) && s.supervisor == Replacing && s.current.Some? && s.cut.Some?
    ensures Inv(SuperviseStep(s).value, ids)
  {
    var t := SuperviseStep(s).value;
    SameLoop(s, t, ids);
    SameHistory(s, t);
    assert Supervision(t);
  }

  /** The task's own part of the state is as before, and the ids were replaced before. */
  ghost predicate SameTask(s: State, t: State) {
    && t.pc == s.pc && t.index == s.index && t.nodeId == s.nodeId && t.found == s.found
    && t.completed == s.completed && t.pending == s.pending && t.taken == s.taken && t.foundLog == s.foundLog
    && t.cut == s.cut && t.fetched == s.fetched && (t.exc == s.exc || (s.cut.Some? && |t.exc| == 1))
  }

  lemma SameLoop(s: State, t: State, ids: seq<int>)
    requires SameTask(s, t)
    ensures Loop(s, ids) ==> Loop(t, ids)
  {
  }

  lemma SameHistory(s: State, t: State)
    requires SameTask(s, t)
    ensures Log(s) ==> Log(t)
    ensures Cut(s) ==> Cut(t)
  {
    SameLog(s, t);
  }

  lemma WatchInv(s: State, ids: seq<int>)
    requires Inv(s, ids) && s.supervisor == Watching && s.started
    ensures Inv(SuperviseStep(s).value, ids)
  {
    var t := SuperviseStep(s).value;
    SameLoop(s, t, ids);
    SameHistory(s, t);
    assert Supervision(t);
  }

  lemma MarkInv(s: State, ids: seq<int>)
    requires Inv(s, ids) && s.supervisor == Marking
    ensures Inv(SuperviseStep(s).value, ids)
  {
    var t := SuperviseStep(s).value;
    SameLoop(s, t, ids);
    SameHistory(s, t);
    assert Supervision(t);
  }

  lemma HandInv(s: State, ids: seq<int>)
    requires Inv(s, ids) && s.supervisor == Handing
    ensures Inv(SuperviseStep(s).value, ids)
  {
  }

  lemma SuperviseInv(s: State, ids: seq<int>)
    requires Inv(s, ids) && SuperviseStep(s).Some?
    ensures Inv(SuperviseStep(s).value, ids)
  {
    match s.supervisor
    case Replacing =>
      if s.cut == None {
        FirstReplaceInv(s, ids);
      } else {
        NextReplaceInv(s, ids);
      }
    case Handing => HandInv(s, ids);
    case Watching => WatchInv(s, ids);
    case Marking => MarkInv(s, ids);
  }

  /** Taking the fetched node moves the head of the pending list to the taken ones. */
  lemma TakeNext(s: State, ids: seq<int>)
    requires Loop(s, ids) && s.pc == Test && s.nodeId.Some?
    ensures s.pending != [] && RemoveFirst(s.pending, s.nodeId.value) == s.pending[1..]
    ensures s.taken + [s.nodeId.value] == ids[..|s.taken| + 1] && s.pending[1..] == ids[|s.taken| + 1..]
  {
  }

  lemma {:induction false} SelectLonger(a: seq<int>, x: int, flags: seq<bool>)
    requires |flags| <= |a|
    ensures Select(a + [x], flags) == Select(a, flags)
  {
    if flags != [] {
      SelectLonger(a, x, flags[..|flags| - 1]);
    }
  }

  lemma SelectLast(a: seq<int>, flags: seq<bool>, b: bool)
    requires |flags| + 1 == |a|
    ensures Select(a, flags + [b]) == Select(a, flags) + (if b then [a[|a| - 1]] else [])
  {
    assert (flags + [b])[..|flags|] == flags;
  }

  lemma StepInv(s: State, ids: seq<int>, step: Step)
    requires Inv(s, ids) && Next(s, ids, step).Some?
    ensures Inv(Next(s, ids, step).value, ids)
  {
    match step
    case Supervise => SuperviseInv(s, ids);
    case Fail =>
    case Work(found) =>
      if s.pc == Start {
        StartInv(s, ids);
      } else if s.pc == Test {
        TestInv(s, ids, found);
      } else if s.pc == Query {
        QueryInv(s, ids, found);
      } else if s.pc == FetchFirst || s.pc == FetchNext {
        FetchInv(s, ids, found);
      } else if s.pc == AppendDone {
        AppendInv(s, ids, found);
      } else {
        CurrentInv(s, ids, found);
      }
  }

  lemma {:induction false} AfterInv(ids: seq<int>, steps: seq<Step>)
    ensures After(ids, steps).Some? ==> Inv(After(ids, steps).value, ids)
  {
    if steps != [] {
      var front := steps[..|steps| - 1];
      AfterInv(ids, front);
      if After(ids, steps).Some? {
        StepInv(After(ids, front).value, ids, steps[|steps| - 1]);
      }
    }
  }

  // ---------------------------------------------------------------- the current node

  /** Between becoming current and being listed as completed. */
  predicate InWork(s: State) {
    s.pc == SetStartTime || s.pc == Refresh || s.pc == AppendDone
  }

  /** The current node is the one in work, or else the last one completed; the ids are
      replaced by a node that was current. */
  ghost predicate CurrentOf(inWork: bool, taken: seq<int>, completed: seq<int>, current: Option<int>, replaced: bool, exc: seq<int>) {
    && (inWork ==> taken != [] && current == Some(taken[|taken| - 1]))
    && (!inWork && completed == [] ==> current == None)
    && (!inWork && completed != [] ==> current == Some(completed[|completed| - 1]))
    && (replaced ==> |exc| == 1 && (exc[0] in completed || current == Some(exc[0])))
  }

  ghost predicate CurrentIs(s: State) {
    CurrentOf(InWork(s), s.taken, s.completed, s.current, s.cut.Some?, s.exc)
  }

  lemma CurrentSet(s: State, ids: seq<int>, found: bool)
    requires CurrentIs(s) && s.pc == SetCurrent && WorkStep(s, ids, found).Some?
    ensures CurrentIs(WorkStep(s, ids, found).value)
  {
    assert s.completed != [] ==> s.completed[|s.completed| - 1] in s.completed;
  }

  lemma CurrentDone(s: State, ids: seq<int>, found: bool)
    requires CurrentIs(s) && s.pc == AppendDone && WorkStep(s, ids, found).Some?
    ensures CurrentIs(WorkStep(s, ids, found).value)
  {
    var t := WorkStep(s, ids, found).value;
    assert t.completed == s.completed + [s.taken[|s.taken| - 1]];
    assert t.completed[|s.completed|] == s.taken[|s.taken| - 1];
    assert forall x :: x in s.completed ==> x in t.completed;
  }

  lemma CurrentKept(s: State, ids: seq<int>, found: bool)
    requires CurrentIs(s) && s.pc != SetCurrent && s.pc != AppendDone && (s.pc == Start ==> s == Initial)
    requires WorkStep(s, ids, found).Some?
    ensures CurrentIs(WorkStep(s, ids, found).value)
  {
    var t := WorkStep(s, ids, found).value;
    assert InWork(t) == InWork(s) && t.completed == s.completed && t.current == s.current && t.cut == s.cut;
    assert s.pc == Start || t.exc == s.exc;
    assert InWork(s) ==> t.taken == s.taken;
  }

  lemma CurrentReplaced(inWork: bool, taken: seq<int>, completed: seq<int>, current: Option<int>, replaced: bool, exc: seq<int>)
    requires CurrentOf(inWork, taken, completed, current, replaced, exc) && current.Some?
    ensures CurrentOf(inWork, taken, completed, current, true, [current.value])
  {
  }

  /** The supervisor changes no list of the task. */
  lemma SuperviseKeeps(s: State, t: State)
    requires SuperviseStep(s) == Some(t)
    ensures t.pc == s.pc && t.taken == s.taken && t.completed == s.completed && t.current == s.current
  {
  }

  /** It replaces the ids by the current node. */
  lemma SuperviseReplaces(s: State, t: State)
    requires SuperviseStep(s) == Some(t)
    ensures s.supervisor == Replacing ==> s.current.Some? && t.cut.Some? && t.exc == [s.current.value]
    ensures s.supervisor != Replacing ==> t.cut == s.cut && t.exc == s.exc
  {
  }

  lemma CurrentSupervised(s: State)
    requires CurrentIs(s) && SuperviseStep(s).Some?
    ensures CurrentIs(SuperviseStep(s).value)
  {
    SuperviseKeeps(s, SuperviseStep(s).value);
    SuperviseReplaces(s, SuperviseStep(s).value);
    if s.supervisor == Replacing {
      CurrentReplaced(InWork(s), s.taken, s.completed, s.current, s.cut.Some?, s.exc);
    }
  }

  lemma CurrentStep(s: State, ids: seq<int>, step: Step)
    requires Inv(s, ids) && CurrentIs(s) && Next(s, ids, step).Some?
    ensures CurrentIs(Next(s, ids, step).value)
  {
    match step
    case Fail =>
    case Supervise => CurrentSupervised(s);
    case Work(found) =>
      if s.pc == SetCurrent {
        CurrentSet(s, ids, found);
      } else if s.pc == AppendDone {
        CurrentDone(s, ids, found);
      } else {
        CurrentKept(s, ids, found);
      }
  }

  lemma {:induction false} CurrentRun(ids: seq<int>, steps: seq<Step>)
    ensures After(ids, steps).Some? ==> CurrentIs(After(ids, steps).value)
  {
    if steps != [] {
      var front := steps[..|steps| - 1];
      AfterInv(ids, front);
      CurrentRun(ids, front);
      if After(ids, steps).Some? {
        CurrentStep(After(ids, front).value, ids, steps[|steps| - 1]);
      }
    }
  }

  /** In every interleaving the current node is the one in work or the last one completed,
      and a hung task is left with one of these as its only id. */
  lemma CurrentIsLastFound(ids: seq<int>, s: State)
    requires Reachable(ids, s)
    ensures CurrentIs(s)
  {
    var steps :| After(ids, steps) == Some(s);
    CurrentRun(ids, steps);
  }

  // ---------------------------------------------------------------- properties of all runs

  ghost predicate Reachable(ids: seq<int>, s: State) {
    exists steps :: After(ids, steps) == Some(s)
  }

  lemma ReachedInv(ids: seq<int>, s: State)
    requires Reachable(ids, s)
    ensures Inv(s, ids)
  {
    var steps :| After(ids, steps) == Some(s);
    AfterInv(ids, steps);
  }

  lemma PrefixAndRest(ids: seq<int>, s: State)
    requires Loop(s, ids)
    ensures s.taken + s.pending == ids
  {
  }

  /** The batch is conserved: what was taken followed by what is pending is the batch. */
  lemma BatchConserved(ids: seq<int>, s: State)
    requires Reachable(ids, s) && s.pc != Start
    ensures s.taken + s.pending == ids
    ensures |s.foundLog| <= |s.taken|
    ensures s.pc != Query && s.pc != Done ==> s.completed + InProgress(s) == Select(s.taken, s.foundLog)
  {
    ReachedInv(ids, s);
    PrefixAndRest(ids, s);
  }

  /** A query that raises ends the task at once: the node just taken from pending_nodes stays
      taken without an answer, and the lists are left as they are. */
  lemma RaisingQueryEnds(ids: seq<int>, s: State)
    requires Reachable(ids, s) && s.pc == Query
    ensures exists t :: Reachable(ids, t) && t.pc == Done && |t.taken| == |t.foundLog| + 1
                        && t.taken == s.taken && t.pending == s.pending && t.completed == s.completed
  {
    ReachedInv(ids, s);
    var steps :| After(ids, steps) == Some(s);
    assert (steps + [Fail])[..|steps|] == steps;
    assert After(ids, steps + [Fail]) == Some(s.(pc := Done));
    assert Reachable(ids, s.(pc := Done));
  }

  /** A task that ends without being marked has taken every node of its batch. */
  lemma UndisturbedTakesAll(ids: seq<int>, s: State)
    requires Reachable(ids, s) && s.pc == Test && s.nodeId == None && s.cut == None
    ensures s.taken == ids && s.pending == [] && |s.foundLog| == |ids|
    ensures s.completed == Select(ids, s.foundLog)
  {
    ReachedInv(ids, s);
    assert s.completed + [] == s.completed;
    assert ids[..|ids|] == ids;
  }

  /** From the moment the supervisor replaces the ids, at most one further node is taken,
      and one is taken exactly when it had already been fetched. */
  lemma AtMostOneMore(ids: seq<int>, s: State)
    requires Reachable(ids, s) && s.cut.Some?
    ensures s.cut.value <= |s.taken| <= s.cut.value + 1
    ensures s.pc == Test && s.nodeId == None ==> |s.taken| == s.cut.value + (if s.fetched then 1 else 0)
  {
    ReachedInv(ids, s);
  }

  /** The list handed to a supervisor that sees the task hung shrinks by at most one node
      afterwards. */
  lemma HandedListShrinksByOne(ids: seq<int>, s: State)
    requires Reachable(ids, s) && s.handed.Some?
    ensures s.markHung
    ensures s.pending == s.handed.value || (s.handed.value != [] && s.pending == s.handed.value[1..])
  {
    ReachedInv(ids, s);
  }
}
