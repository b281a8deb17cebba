/** The scheduler of task_service.py. The clock, the results table and the pool's answers
    come from a world that is asked step by step; times are in microseconds. */
module Scheduler {
  import opened Prelude

  /** A row of the TaskInterval table; the interval is in minutes. */
  datatype IntervalRow = IntervalRow(task: string, interval: Option<int>, nextExecution: nat)

  predicate Repeats(interval: Option<int>) {
    interval.Some? && interval.value > 0
  }

  function Gap(interval: Option<int>): nat {
    if Repeats(interval) then interval.value * 60_000_000 else 0
  }

  /** What the world answers at each step: the time, the tasks with a STARTED result, and
      whether the pool takes a task. */
  datatype World = World(time: nat -> nat, started: nat -> set<string>, accepts: nat -> bool)

  ghost predicate Monotone(w: World) {
    forall i, j :: 0 <= i <= j ==> w.time(i) <= w.time(j)
  }

  /** A submission for a row: the step at which the results were checked, and the step after
      the submission returned. */
  datatype Submission = Submission(row: nat, task: string, interval: Option<int>, begin: nat, end: nat)

  /** Two submissions for one row: it repeats, and the later one begins an interval after
      the earlier one returned. In particular a one-shot row is submitted at most once. */
  ghost predicate Spaced(w: World, log: seq<Submission>) {
    forall i, j :: 0 <= i < j < |log| && log[i].row == log[j].row ==>
      Repeats(log[i].interval) && log[j].interval == log[i].interval && Apart(w, log[i], log[j])
  }

  predicate Apart(w: World, a: Submission, b: Submission) {
    w.time(a.end) + Gap(a.interval) <= w.time(b.begin)
  }

  /** No submission was made while a STARTED result of the task existed. */
  ghost predicate NoneStarted(w: World, log: seq<Submission>) {
    forall i :: 0 <= i < |log| ==> log[i].begin < log[i].end && log[i].task !in w.started(log[i].begin)
  }

  /** A submitted row is gone if it does not repeat, and else waits its interval. */
  ghost predicate Waiting(w: World, log: seq<Submission>, rows: map<nat, IntervalRow>) {
    forall i :: 0 <= i < |log| && log[i].row in rows ==> WaitsFor(w, log[i], rows[log[i].row])
  }

  predicate WaitsFor(w: World, e: Submission, row: IntervalRow) {
    Repeats(e.interval) && row.interval == e.interval && w.time(e.end) + Gap(e.interval) <= row.nextExecution
  }

  /** Row numbers are not used twice. */
  ghost predicate Numbered(log: seq<Submission>, rows: map<nat, IntervalRow>, nextId: nat) {
    && (forall r :: r in rows ==> r < nextId)
    && (forall i :: 0 <= i < |log| ==> log[i].row < nextId)
  }

  // ---------------------------------------------------------------- one firing

  function Next(row: IntervalRow, now: nat): IntervalRow {
    row.(nextExecution := now + Gap(row.interval))
  }

  function AfterFiring(rows: map<nat, IntervalRow>, id: nat, now: nat): map<nat, IntervalRow>
    requires id in rows
  {
    if Repeats(rows[id].interval) then rows[id := Next(rows[id], now)] else rows - {id}
  }

  lemma FiringKeepsSpaced(w: World, log: seq<Submission>, rows: map<nat, IntervalRow>, e: Submission)
    requires Spaced(w, log) && Waiting(w, log, rows) && e.row in rows
    requires rows[e.row].interval == e.interval && rows[e.row].nextExecution <= w.time(e.begin)
    ensures Spaced(w, log + [e])
  {
    var after := log + [e];
    forall i, j | 0 <= i < j < |after| && after[i].row == after[j].row
      ensures Repeats(after[i].interval) && after[j].interval == after[i].interval && Apart(w, after[i], after[j])
    {
      if j < |log| {
        assert after[i] == log[i] && after[j] == log[j];
      } else {
        assert after[i] == log[i] && after[j] == e;
        assert WaitsFor(w, log[i], rows[e.row]);
      }
    }
  }

  lemma FiringKeepsWaiting(w: World, log: seq<Submission>, rows: map<nat, IntervalRow>, e: Submission)
    requires Monotone(w) && Waiting(w, log, rows) && e.row in rows && e.begin <= e.end
    requires rows[e.row].interval == e.interval && rows[e.row].nextExecution <= w.time(e.begin)
    ensures Waiting(w, log + [e], AfterFiring(rows, e.row, w.time(e.end)))
  {
    var after := log + [e];
    var left := AfterFiring(rows, e.row, w.time(e.end));
    assert w.time(e.begin) <= w.time(e.end);
    forall i | 0 <= i < |after| && after[i].row in left ensures WaitsFor(w, after[i], left[after[i].row]) {
      if i < |log| {
        assert after[i] == log[i];
        assert WaitsFor(w, log[i], rows[log[i].row]);
      }
    }
  }

  // ---------------------------------------------------------------- one round of the loop

  function Due(rows: map<nat, IntervalRow>, now: nat): set<nat> {
    set r | r in rows && rows[r].nextExecution <= now
  }

  /** The row has been submitted at the step. */
  ghost predicate Handled(w: World, log0: seq<Submission>, log1: seq<Submission>, rows0: map<nat, IntervalRow>,
                          rows1: map<nat, IntervalRow>, id: nat, begin: nat) {
    && id in rows0 && |log1| == |log0| + 1 && log1[..|log0|] == log0
    && log1[|log0|].row == id && log1[|log0|].task == rows0[id].task && log1[|log0|].begin == begin
    && rows1 == AfterFiring(rows0, id, w.time(log1[|log0|].end))
  }

  /** The submission is for its row's task, and has put the row off or deleted it. */
  predicate PutOff(w: World, e: Submission, row: IntervalRow, rows: map<nat, IntervalRow>) {
    && e.task == row.task
    && if Repeats(row.interval) then e.row in rows && rows[e.row] == Next(row, w.time(e.end)) else e.row !in rows
  }

  /** The rows that had their turn at the given steps: exactly those were submitted, once,
      whose task had no STARTED result then. All other rows are as before. */
  ghost predicate RoundDone(w: World, log0: seq<Submission>, log1: seq<Submission>, rows0: map<nat, IntervalRow>,
                            rows1: map<nat, IntervalRow>, turns: map<nat, nat>) {
    && turns.Keys <= rows0.Keys && rows1.Keys <= rows0.Keys
    && |log0| <= |log1| && log1[..|log0|] == log0
    && New(w, log1[|log0|..], rows0, rows1, turns)
    && (forall r :: r in turns ==> (rows0[r].task !in w.started(turns[r]) <==> Submitted(log1[|log0|..], r)))
    && (forall r :: r in rows0 && !Submitted(log1[|log0|..], r) ==> r in rows1 && rows1[r] == rows0[r])
  }

  /** The new submissions are for different rows that had their turn. */
  ghost predicate New(w: World, added: seq<Submission>, rows0: map<nat, IntervalRow>, rows1: map<nat, IntervalRow>, turns: map<nat, nat>) {
    && (forall i :: 0 <= i < |added| ==> HadTurn(w, added[i], rows0, rows1, turns))
    && (forall i, j :: 0 <= i < j < |added| ==> added[i].row != added[j].row)
  }

  predicate HadTurn(w: World, e: Submission, rows0: map<nat, IntervalRow>, rows1: map<nat, IntervalRow>, turns: map<nat, nat>) {
    e.row in turns && e.begin == turns[e.row] && e.row in rows0 && PutOff(w, e, rows0[e.row], rows1)
  }

  ghost predicate Submitted(added: seq<Submission>, r: nat) {
    exists i :: 0 <= i < |added| && added[i].row == r
  }

  lemma SubmittedOneMore(added: seq<Submission>, e: Submission, r: nat)
    ensures Submitted(added + [e], r) <==> Submitted(added, r) || e.row == r
  {
    var after := added + [e];
    assert forall i :: 0 <= i < |added| ==> after[i] == added[i];
    assert after[|added|] == e;
    if Submitted(added, r) {
      var i :| 0 <= i < |added| && added[i].row == r;
      assert after[i].row == r;
    }
  }

  lemma NewOneMore(w: World, added: seq<Submission>, e: Submission, rows0: map<nat, IntervalRow>,
                   rows1: map<nat, IntervalRow>, turns: map<nat, nat>)
    requires New(w, added, rows0, rows1, turns)
    requires e.row in rows0 && e.row in rows1 && rows1[e.row] == rows0[e.row] && e.row !in turns && e.task == rows0[e.row].task
    ensures New(w, added + [e], rows0, AfterFiring(rows1, e.row, w.time(e.end)), turns[e.row := e.begin])
  {
    var after := added + [e];
    var rows2 := AfterFiring(rows1, e.row, w.time(e.end));
    var more := turns[e.row := e.begin];
    forall i | 0 <= i < |after| ensures HadTurn(w, after[i], rows0, rows2, more) && (i < |added| ==> after[i].row != e.row) {
      if i < |added| {
        assert after[i] == added[i] && HadTurn(w, added[i], rows0, rows1, turns);
      }
    }
    assert forall i :: 0 <= i < |added| ==> after[i] == added[i];
  }

  lemma AllSubmitted(added: seq<Submission>, e: Submission)
    ensures forall r: nat :: Submitted(added + [e], r) <==> Submitted(added, r) || e.row == r
  {
    forall r: nat ensures Submitted(added + [e], r) <==> Submitted(added, r) || e.row == r {
      SubmittedOneMore(added, e, r);
    }
  }

  lemma AddedTurns(w: World, added: seq<Submission>, rows0: map<nat, IntervalRow>, rows1: map<nat, IntervalRow>, turns: map<nat, nat>, r: nat)
    requires New(w, added, rows0, rows1, turns) && Submitted(added, r)
    ensures r in turns
  {
    var i :| 0 <= i < |added| && added[i].row == r;
    assert HadTurn(w, added[i], rows0, rows1, turns);
  }

  lemma Suffix(log0: seq<Submission>, log1: seq<Submission>, log2: seq<Submission>)
    requires |log0| <= |log1| && log1[..|log0|] == log0 && |log2| == |log1| + 1 && log2[..|log1|] == log1
    ensures log2[|log0|..] == log1[|log0|..] + [log2[|log1|]] && log2[..|log0|] == log0
  {
    assert log2 == log1 + [log2[|log1|]];
  }

  /** One more row has its turn and is submitted. */
  lemma RoundGrows(w: World, log0: seq<Submission>, log1: seq<Submission>, log2: seq<Submission>, rows0: map<nat, IntervalRow>,
                   rows1: map<nat, IntervalRow>, rows2: map<nat, IntervalRow>, turns: map<nat, nat>, id: nat, turn: nat)
    requires RoundDone(w, log0, log1, rows0, rows1, turns)
    requires id in rows0 && id in rows1 && rows1[id] == rows0[id] && id !in turns
    requires rows0[id].task !in w.started(turn) && Handled(w, log1, log2, rows1, rows2, id, turn)
    ensures RoundDone(w, log0, log2, rows0, rows2, turns[id := turn])
  {
    Suffix(log0, log1, log2);
    var added, e := log1[|log0|..], log2[|log1|];
    NewOneMore(w, added, e, rows0, rows1, turns);
    AllSubmitted(added, e);
    if Submitted(added, id) {
      AddedTurns(w, added, rows0, rows1, turns, id);
    }
  }

  lemma RoundStarts(w: World, log: seq<Submission>, rows: map<nat, IntervalRow>)
    ensures RoundDone(w, log, log, rows, rows, map[])
  {
  }

  /** Exactly the given rows had a turn, at steps between two others. */
  ghost predicate TurnsIn(turns: map<nat, nat>, rows: set<nat>, a: nat, b: nat) {
    turns.Keys == rows && forall r :: r in turns ==> a < turns[r] < b
  }

  ghost predicate StillDue(due: set<nat>, rows0: map<nat, IntervalRow>, rows: map<nat, IntervalRow>, now: nat) {
    forall r :: r in due ==> r in rows0 && r in rows && rows[r] == rows0[r] && rows[r].nextExecution <= now
  }

  /** One more row has its turn, but its task has a STARTED result. */
  lemma RoundSkips(w: World, log0: seq<Submission>, log1: seq<Submission>, rows0: map<nat, IntervalRow>,
                   rows1: map<nat, IntervalRow>, turns: map<nat, nat>, id: nat, turn: nat)
    requires RoundDone(w, log0, log1, rows0, rows1, turns)
    requires id in rows0 && id !in turns && rows0[id].task in w.started(turn)
    ensures RoundDone(w, log0, log1, rows0, rows1, turns[id := turn])
  {
  }

  /** What one pass does to a row: if its time had not come at the beginning, or its task had
      a STARTED result at its turn, nothing; otherwise its task is submitted once, and then a
      row with a positive interval waits that many minutes from the return of the
      submission, and any other row is gone. */
  ghost predicate RowAfterPass(w: World, now: nat, r: nat, row: IntervalRow, turns: map<nat, nat>, added: seq<Submission>,
                               rows1: map<nat, IntervalRow>) {
    && (r in turns <==> row.nextExecution <= now)
    && (r !in turns || row.task in w.started(turns[r]) ==> r in rows1 && rows1[r] == row && !Submitted(added, r))
    && (r in turns && row.task !in w.started(turns[r]) ==>
          exists i :: 0 <= i < |added| && OnlyOne(added, i) && FiredFor(w, added[i], r, row, turns[r], rows1))
  }

  ghost predicate OnlyOne(added: seq<Submission>, i: nat)
    requires i < |added|
  {
    forall j :: 0 <= j < |added| && added[j].row == added[i].row ==> j == i
  }

  predicate FiredFor(w: World, e: Submission, r: nat, row: IntervalRow, turn: nat, rows1: map<nat, IntervalRow>) {
    && e.row == r && e.task == row.task && e.begin == turn
    && if row.interval.Some? && row.interval.value > 0
       then r in rows1 && rows1[r] == IntervalRow(row.task, row.interval, w.time(e.end) + row.interval.value * 60_000_000)
       else r !in rows1
  }

  lemma PassMeaning(w: World, now: nat, log0: seq<Submission>, log1: seq<Submission>, rows0: map<nat, IntervalRow>,
                    rows1: map<nat, IntervalRow>, turns: map<nat, nat>, r: nat)
    requires RoundDone(w, log0, log1, rows0, rows1, turns) && turns.Keys == Due(rows0, now) && r in rows0
    ensures RowAfterPass(w, now, r, rows0[r], turns, log1[|log0|..], rows1)
  {
    var added := log1[|log0|..];
    if r !in turns && Submitted(added, r) {
      AddedTurns(w, added, rows0, rows1, turns, r);
    }
    if r in turns && rows0[r].task !in w.started(turns[r]) {
      var i :| 0 <= i < |added| && added[i].row == r;
      assert HadTurn(w, added[i], rows0, rows1, turns);
      assert OnlyOne(added, i) && FiredFor(w, added[i], r, rows0[r], turns[r], rows1);
    }
  }

  // ---------------------------------------------------------------- how often a row fires

  function Count(log: seq<Submission>, row: nat): nat {
    if log == [] then 0
    else Count(log[..|log| - 1], row) + if log[|log| - 1].row == row then 1 else 0
  }

  ghost predicate Within(w: World, log: seq<Submission>, row: nat, interval: Option<int>, a: int, b: int) {
    forall i :: 0 <= i < |log| && log[i].row == row ==> log[i].interval == interval && a <= w.time(log[i].begin) <= b
  }

  lemma {:induction false} CountZero(log: seq<Submission>, row: nat)
    requires forall i :: 0 <= i < |log| ==> log[i].row != row
    ensures Count(log, row) == 0
  {
    if log != [] {
      CountZero(log[..|log| - 1], row);
    }
  }

  lemma OneLess(n: int, gap: int)
    ensures n * gap == (n - 1) * gap + gap
  {
  }

  /** The submissions of the row are gap apart and lie between the two moments. */
  ghost predicate ApartBy(w: World, log: seq<Submission>, row: nat, gap: nat, a: int, b: int) {
    && (forall i :: 0 <= i < |log| && log[i].row == row ==> a <= w.time(log[i].begin) <= b)
    && (forall i, j :: 0 <= i < j < |log| && log[i].row == row && log[j].row == row ==>
          w.time(log[i].begin) + gap <= w.time(log[j].begin))
  }

  lemma {:induction false} GapsAddUp(w: World, log: seq<Submission>, row: nat, gap: nat, a: int, b: int)
    requires ApartBy(w, log, row, gap, a, b)
    ensures Count(log, row) >= 1 ==> (Count(log, row) - 1) * gap <= b - a
    decreases |log|
  {
    if log != [] {
      var n := |log| - 1;
      if log[n].row != row {
        GapsAddUp(w, log[..n], row, gap, a, b);
      } else {
        var latest := w.time(log[n].begin) - gap;
        GapsAddUp(w, log[..n], row, gap, a, latest);
        RateStep(Count(log[..n], row), gap, a, latest, b);
      }
    }
  }

  /** A row that is submitted n times between two moments repeats, if n > 1, and the moments
      are at least n - 1 intervals apart. */
  lemma RateBound(w: World, log: seq<Submission>, row: nat, interval: Option<int>, a: int, b: int)
    requires Monotone(w) && Spaced(w, log) && NoneStarted(w, log) && Within(w, log, row, interval, a, b)
    ensures Count(log, row) >= 1 ==> (Count(log, row) - 1) * Gap(interval) <= b - a
    ensures Count(log, row) >= 2 ==> Repeats(interval)
  {
    forall i, j | 0 <= i < j < |log| && log[i].row == row && log[j].row == row
      ensures w.time(log[i].begin) + Gap(interval) <= w.time(log[j].begin) {
      assert Apart(w, log[i], log[j]);
      assert log[i].begin < log[i].end;
    }
    GapsAddUp(w, log, row, Gap(interval), a, b);
    TwiceRepeats(w, log, row, interval);
  }

  /** In minutes: n submissions of a row with an interval take n - 1 times as long, and any
      other row is submitted once at most. */
  lemma RateInMinutes(w: World, log: seq<Submission>, row: nat, interval: Option<int>, a: int, b: int)
    requires Monotone(w) && Spaced(w, log) && NoneStarted(w, log) && Within(w, log, row, interval, a, b)
    ensures interval == None || interval.value <= 0 ==> Count(log, row) <= 1
    ensures interval.Some? && interval.value > 0 && Count(log, row) >= 1 ==>
              (Count(log, row) - 1) * (interval.value * 60_000_000) <= b - a
  {
    RateBound(w, log, row, interval, a, b);
  }

  lemma RateStep(n: nat, gap: nat, a: int, latest: int, b: int)
    requires n >= 1 ==> (n - 1) * gap <= latest - a
    requires a <= latest + gap <= b
    ensures n * gap <= b - a
  {
    if n >= 1 {
      OneLess(n, gap);
    }
  }

  lemma {:induction false} TwiceRepeats(w: World, log: seq<Submission>, row: nat, interval: Option<int>)
    requires Spaced(w, log) && forall i :: 0 <= i < |log| && log[i].row == row ==> log[i].interval == interval
    ensures Count(log, row) >= 2 ==> Repeats(interval)
  {
    if log != [] {
      var n := |log| - 1;
      TwiceRepeats(w, log[..n], row, interval);
      if i :| 0 <= i < n && log[i].row == row && log[n].row == row {
        assert Repeats(log[i].interval);
      } else if log[n].row == row {
        CountZero(log[..n], row);
      }
    }
  }

  // ---------------------------------------------------------------- the scheduler

  /** How often the pool is asked: every half second. */
  function Attempts(maxSleep: int): nat {
    if maxSleep <= 0 then 0 else 2 * maxSleep
  }

  predicate OneMore(task: string, taken0: seq<string>, taken1: seq<string>, failed0: seq<string>, failed1: seq<string>) {
    || (taken1 == taken0 + [task] && failed1 == failed0)
    || (taken1 == taken0 && failed1 == failed0 + [task])
  }

  /** The tasks of the submissions. */
  function TasksOf(log: seq<Submission>): multiset<string> {
    if log == [] then multiset{} else TasksOf(log[..|log| - 1]) + multiset{log[|log| - 1].task}
  }

  /** Every submission has handed its task to the pool once, or recorded one failure. */
  ghost predicate AllHanded(log: seq<Submission>, taken: seq<string>, failed: seq<string>) {
    multiset(taken) + multiset(failed) == TasksOf(log)
  }

  lemma HandsOneMore(log: seq<Submission>, e: Submission, taken0: seq<string>, taken1: seq<string>, failed0: seq<string>, failed1: seq<string>)
    requires AllHanded(log, taken0, failed0) && OneMore(e.task, taken0, taken1, failed0, failed1)
    ensures AllHanded(log + [e], taken1, failed1)
  {
    assert (log + [e])[..|log|] == log;
  }

  /** What holds of a run: the submissions so far, the rows they left, and what became of
      their tasks. */
  ghost predicate History(w: World, log: seq<Submission>, rows: map<nat, IntervalRow>, nextId: nat, taken: seq<string>, failed: seq<string>) {
    && Spaced(w, log) && NoneStarted(w, log) && Waiting(w, log, rows) && Numbered(log, rows, nextId)
    && AllHanded(log, taken, failed)
  }

  lemma FiringKeepsHistory(w: World, log: seq<Submission>, rows: map<nat, IntervalRow>, nextId: nat, e: Submission,
                           taken0: seq<string>, taken1: seq<string>, failed0: seq<string>, failed1: seq<string>)
    requires Monotone(w) && History(w, log, rows, nextId, taken0, failed0)
    requires e.row in rows && rows[e.row] == IntervalRow(e.task, e.interval, rows[e.row].nextExecution)
    requires rows[e.row].nextExecution <= w.time(e.begin) && e.begin < e.end && e.task !in w.started(e.begin)
    requires OneMore(e.task, taken0, taken1, failed0, failed1)
    ensures History(w, log + [e], AfterFiring(rows, e.row, w.time(e.end)), nextId, taken1, failed1)
  {
    FiringKeepsSpaced(w, log, rows, e);
    FiringKeepsWaiting(w, log, rows, e);
    HandsOneMore(log, e, taken0, taken1, failed0, failed1);
    FiringKeepsRest(w, log, rows, nextId, e);
  }

  lemma FiringKeepsRest(w: World, log: seq<Submission>, rows: map<nat, IntervalRow>, nextId: nat, e: Submission)
    requires NoneStarted(w, log) && Numbered(log, rows, nextId) && e.row in rows
    requires e.begin < e.end && e.task !in w.started(e.begin)
    ensures NoneStarted(w, log + [e]) && Numbered(log + [e], AfterFiring(rows, e.row, w.time(e.end)), nextId)
  {
  }

  lemma NewRowKeepsHistory(w: World, log: seq<Submission>, rows: map<nat, IntervalRow>, nextId: nat, row: IntervalRow,
                           taken: seq<string>, failed: seq<string>)
    requires History(w, log, rows, nextId, taken, failed)
    ensures nextId !in rows && History(w, log, rows[nextId := row], nextId + 1, taken, failed)
  {
    var after := rows[nextId := row];
    forall i | 0 <= i < |log| && log[i].row in after ensures WaitsFor(w, log[i], after[log[i].row]) {
      assert log[i].row < nextId;
    }
  }

  datatype RowError = NoExecutionTime

  class TaskManager {
    var intervals: map<nat, IntervalRow>
    var nextId: nat
    /** The tasks that the pool has taken, and those whose start was recorded as failed. */
    var taken: seq<string>
    var failed: seq<string>
    var step: nat
    const world: World
    const maxSleep: int

    ghost var log: seq<Submission>

    constructor (world: World, maxSleep: int)
      requires Monotone(world)
      ensures Valid() && this.world == world && this.maxSleep == maxSleep && log == [] && intervals == map[]
    {
      this.world, this.maxSleep := world, maxSleep;
      intervals, nextId, taken, failed, step, log := map[], 0, [], [], 0, [];
    }

    ghost predicate Valid()
      reads this
    {
      Monotone(world) && History(world, log, intervals, nextId, taken, failed)
    }

    /** `submit_task`: the task is handed over at the first answer that takes it, once. */
    method SubmitTask(task: string, max: int) returns (ok: bool)
      modifies this`step, this`taken
      ensures ok <==> exists k :: old(step) <= k < old(step) + 2 * max && world.accepts(k)
      ensures taken == if ok then old(taken) + [task] else old(taken)
      ensures ok ==> old(step) < step && world.accepts(step - 1) && forall k :: old(step) <= k < step - 1 ==> !world.accepts(k)
      ensures old(step) <= step && (step > old(step) ==> step <= old(step) + 2 * max)
      ensures !ok && max > 0 ==> step == old(step) + 2 * max
    {
      var sleepTime: real := 0.0;
      while sleepTime < max as real
        invariant old(step) <= step <= old(step) + Attempts(max)
        invariant sleepTime == (step - old(step)) as real / 2.0
        invariant taken == old(taken)
        invariant forall k :: old(step) <= k < step ==> !world.accepts(k)
        decreases old(step) + Attempts(max) - step
      {
        var answer := world.accepts(step);
        step := step + 1;
        if answer {
          taken := taken + [task];
          return true;
        }
        sleepTime := sleepTime + 0.5;
      }
      return false;
    }

    /** `submit_async`: the pool takes the task once, or the failure is recorded. */
    method SubmitAsync(task: string)
      modifies this`step, this`taken, this`failed
      ensures old(step) <= step
      ensures OneMore(task, old(taken), taken, old(failed), failed)
      ensures taken != old(taken) <==> exists k :: old(step) <= k < old(step) + 2 * maxSleep && world.accepts(k)
    {
      var ok := SubmitTask(task, maxSleep);
      if !ok {
        failed := failed + [task];
      }
    }

    /** `check_prior_execution` */
    method CheckPriorExecution(task: string) returns (free: bool)
      modifies this`step
      ensures free <==> task !in world.started(old(step))
      ensures step == old(step) + 1
    {
      free := task !in world.started(step);
      step := step + 1;
    }

    /** A due row is submitted after its check, and is put off or deleted. */
    method Submit(id: nat, ghost begin: nat)
      requires Valid() && id in intervals && begin < step
      requires intervals[id].nextExecution <= world.time(begin) && intervals[id].task !in world.started(begin)
      modifies this
      ensures Valid() && nextId == old(nextId) && old(step) < step
      ensures Handled(world, old(log), log, old(intervals), intervals, id, begin)
      ensures OneMore(old(intervals)[id].task, old(taken), taken, old(failed), failed)
    {
      var row := intervals[id];
      SubmitAsync(row.task);
      ghost var e := Submission(id, row.task, row.interval, begin, step);
      FiringKeepsHistory(world, log, intervals, nextId, e, old(taken), taken, old(failed), failed);
      log := log + [e];
      if row.interval.Some? && row.interval.value > 0 {
        intervals := intervals[id := row.(nextExecution := world.time(step) + row.interval.value * 60_000_000)];
      } else {
        intervals := intervals - {id};
      }
      assert intervals == AfterFiring(old(intervals), id, world.time(e.end));
      step := step + 1;
    }

    /** One round of the loop: a due row is submitted unless its task has a STARTED result;
        then nothing happens. */
    method Fire(id: nat) returns (fired: bool)
      requires Valid() && id in intervals && intervals[id].nextExecution <= world.time(step)
      modifies this
      ensures Valid() && nextId == old(nextId) && old(step) < step
      ensures fired <==> old(intervals)[id].task !in world.started(old(step))
      ensures !fired ==> log == old(log) && intervals == old(intervals) && taken == old(taken) && failed == old(failed)
      ensures fired ==> Handled(world, old(log), log, old(intervals), intervals, id, old(step))
      ensures fired ==> OneMore(old(intervals)[id].task, old(taken), taken, old(failed), failed)
    {
      fired := CheckPriorExecution(intervals[id].task);
      if fired {
        Submit(id, step - 1);
      }
    }

    /** `Fire` within a round. */
    method TakeTurn(id: nat, ghost log0: seq<Submission>, ghost rows0: map<nat, IntervalRow>, ghost turns: map<nat, nat>)
      returns (ghost more: map<nat, nat>)
      requires Valid() && id in intervals && intervals[id].nextExecution <= world.time(step)
      requires RoundDone(world, log0, log, rows0, intervals, turns) && id in rows0 && intervals[id] == rows0[id] && id !in turns
      modifies this
      ensures Valid() && nextId == old(nextId) && old(step) < step
      ensures more == turns[id := old(step)] && RoundDone(world, log0, log, rows0, intervals, more)
      ensures forall r :: r in old(intervals) && r != id ==> r in intervals && intervals[r] == old(intervals)[r]
    {
      ghost var log1, rows1, turn := log, intervals, step;
      var fired := Fire(id);
      if fired {
        RoundGrows(world, log0, log1, log, rows0, rows1, intervals, turns, id, turn);
      } else {
        RoundSkips(world, log0, log, rows0, intervals, turns, id, turn);
      }
      more := turns[id := turn];
    }

    /** A round that began at a step: some of the rows that were due still wait for their turn. */
    ghost predicate InRound(due: set<nat>, turns: map<nat, nat>, begin: nat, log0: seq<Submission>, rows0: map<nat, IntervalRow>)
      reads this
    {
      && begin < step && due <= Due(rows0, world.time(begin))
      && TurnsIn(turns, Due(rows0, world.time(begin)) - due, begin, step)
      && StillDue(due, rows0, intervals, world.time(begin))
      && RoundDone(world, log0, log, rows0, intervals, turns)
    }

    /** One pass through the loop. */
    method NextTurn(id: nat, ghost due: set<nat>, ghost turns: map<nat, nat>, ghost begin: nat,
                    ghost log0: seq<Submission>, ghost rows0: map<nat, IntervalRow>)
      returns (ghost more: map<nat, nat>)
      requires Valid() && id in due && InRound(due, turns, begin, log0, rows0)
      modifies this
      ensures Valid() && nextId == old(nextId)
      ensures InRound(due - {id}, more, begin, log0, rows0)
    {
      assert world.time(begin) <= world.time(step);
      more := TakeTurn(id, log0, rows0, turns);
    }

    /** `check_interval_tasks`: of the rows due at the beginning, each is submitted once if
        its task has no STARTED result when its turn comes, and not otherwise; all other
        rows stay as they are. */
    method CheckIntervalTasks() returns (ghost turns: map<nat, nat>)
      requires Valid()
      modifies this
      ensures Valid() && nextId == old(nextId) && old(step) < step
      ensures TurnsIn(turns, Due(old(intervals), world.time(old(step))), old(step), step)
      ensures RoundDone(world, old(log), log, old(intervals), intervals, turns)
      ensures |old(log)| <= |log| && log[..|old(log)|] == old(log) && intervals.Keys <= old(intervals).Keys
      ensures forall r :: r in old(intervals) ==>
                RowAfterPass(world, world.time(old(step)), r, old(intervals)[r], turns, log[|old(log)|..], intervals)
    {
      var now := world.time(step);
      var due := Due(intervals, now);
      ghost var rows0, log0, begin := intervals, log, step;
      step := step + 1;
      turns := map[];
      RoundStarts(world, log, intervals);
      while due != {}
        invariant Valid() && nextId == old(nextId) && InRound(due, turns, begin, log0, rows0)
        decreases |due|
      {
        var it :| it in due;
        turns := NextTurn(it, due, turns, begin, log0, rows0);
        due := due - {it};
      }
      forall r | r in rows0 ensures RowAfterPass(world, now, r, rows0[r], turns, log[|log0|..], intervals) {
        PassMeaning(world, now, log0, log, rows0, intervals, turns, r);
      }
    }

    /** A new row, as its constructor fills it: without a time of its own it needs an
        interval, and waits that long. */
    method AddInterval(task: string, interval: Option<int>, nextExecution: Option<nat>) returns (r: Result<nat, RowError>)
      requires Valid()
      modifies this
      ensures Valid() && log == old(log)
      ensures r.Raised? <==> nextExecution == None && (interval == None || interval.value <= 0)
      ensures r.Raised? ==> intervals == old(intervals)
      ensures r.Ok? ==> r.value == old(nextId) && old(nextId) !in old(intervals)
      ensures r.Ok? && nextExecution.Some? ==>
                intervals == old(intervals)[old(nextId) := IntervalRow(task, interval, nextExecution.value)]
      ensures r.Ok? && nextExecution == None ==>
                interval.Some? && interval.value > 0 && intervals == old(intervals)[old(nextId) :=
                  IntervalRow(task, interval, world.time(old(step)) + interval.value * 60_000_000)]
    {
      if nextExecution.Some? {
        var id := InsertRow(task, interval, nextExecution.value);
        r := Ok(id);
      } else if interval.Some? && interval.value > 0 {
        step := step + 1;
        var id := InsertRow(task, interval, world.time(step - 1) + interval.value * 60_000_000);
        r := Ok(id);
      } else {
        r := Raised(NoExecutionTime);
      }
    }

    method InsertRow(task: string, interval: Option<int>, when: nat) returns (id: nat)
      requires Valid()
      modifies this`intervals, this`nextId
      ensures Valid() && id == old(nextId) && id !in old(intervals)
      ensures intervals == old(intervals)[id := IntervalRow(task, interval, when)]
    {
      id := nextId;
      NewRowKeepsHistory(world, log, intervals, id, IntervalRow(task, interval, when), taken, failed);
      intervals := intervals[id := IntervalRow(task, interval, when)];
      nextId := nextId + 1;
    }
  }
}
