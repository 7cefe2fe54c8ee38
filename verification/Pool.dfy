/** `Pool` of scripts/lib/checker.py: worker threads, two queues and a joining main thread,
    as a state machine whose steps may interleave in any order. */
module Pool {
  import opened Text

  type Task = nat

  datatype Report = Report(errors: int, output: string)

  /** What each task returns; None stands for a task that returns None. */
  type Outcomes = Task -> Option<Report>

  /** Idle: in `get`. Running: has a task whose result it has not put yet. Finishing: has put the
      result, if there was one, and is about to call `task_done`. */
  datatype Worker = Idle | Running(task: Task) | Finishing(task: Task)

  /** Draining counts the errors of the `taken` reports; Returned is the return value of `join`. */
  datatype Phase =
    | Submitting
    | Waiting
    | Draining(errors: int, taken: seq<Report>)
    | Returned(errors: int, taken: seq<Report>)

  /** `unfinished` and `unread` are the queues' own counts of items without a `task_done`.
      `submitted` and `ran` record the history. */
  datatype State = State(
    pending: seq<Task>, unfinished: int,
    results: seq<Report>, unread: int,
    workers: seq<Worker>, phase: Phase,
    submitted: seq<Task>, ran: seq<Task>)

  datatype Step =
    | Submit(task: Task)
    | CallJoin
    | Get(worker: nat)
    | PutResult(worker: nat)
    | TaskDone(worker: nat)
    | PassWait
    | Drain
    | Return

  function Init(workers: nat): State {
    State([], 0, [], 0, seq(workers, _ => Idle), Submitting, [], [])
  }

  predicate Enabled(s: State, step: Step) {
    match step
    case Submit(_) => s.phase.Submitting?
    case CallJoin => s.phase.Submitting?
    case Get(w) => w < |s.workers| && s.workers[w].Idle? && s.pending != []
    case PutResult(w) => w < |s.workers| && s.workers[w].Running?
    case TaskDone(w) => w < |s.workers| && s.workers[w].Finishing?
    case PassWait => s.phase.Waiting? && s.unfinished == 0
    case Drain => s.phase.Draining? && s.results != []
    case Return => s.phase.Draining? && s.results == [] && s.unread == 0
  }

  function Apply(outcomes: Outcomes, s: State, step: Step): State
    requires Enabled(s, step)
  {
    match step
    case Submit(t) => s.(pending := s.pending + [t], unfinished := s.unfinished + 1, submitted := s.submitted + [t])
    case CallJoin => s.(phase := Waiting)
    case Get(w) => s.(pending := s.pending[1..], workers := s.workers[w := Running(s.pending[0])])
    case PutResult(w) =>
      var t := s.workers[w].task;
      var s' := s.(workers := s.workers[w := Finishing(t)], ran := s.ran + [t]);
      (match outcomes(t)
       case None => s'
       case Some(report) => s'.(results := s.results + [report], unread := s.unread + 1))
    case TaskDone(w) => s.(workers := s.workers[w := Idle], unfinished := s.unfinished - 1)
    case PassWait => s.(phase := Draining(0, []))
    case Drain =>
      s.(results := s.results[1..], unread := s.unread - 1,
         phase := Draining(s.phase.errors + s.results[0].errors, s.phase.taken + [s.results[0]]))
    case Return => s.(phase := Returned(s.phase.errors, s.phase.taken))
  }

  /** The state after these steps, or None if one of them is not enabled in its turn. */
  function Exec(outcomes: Outcomes, from: State, steps: seq<Step>): Option<State> {
    if steps == [] then Some(from)
    else
      match Exec(outcomes, from, steps[..|steps| - 1])
      case None => None
      case Some(s) => if Enabled(s, steps[|steps| - 1]) then Some(Apply(outcomes, s, steps[|steps| - 1])) else None
  }

  // ----- counting -----

  function Busy(workers: seq<Worker>): nat {
    if workers == [] then 0
    else Busy(workers[..|workers| - 1]) + if workers[|workers| - 1].Idle? then 0 else 1
  }

  /** How many workers run `t` and have not put its result. */
  function InFlight(workers: seq<Worker>, t: Task): nat {
    if workers == [] then 0
    else InFlight(workers[..|workers| - 1], t) + if workers[|workers| - 1] == Running(t) then 1 else 0
  }

  /** How often `t` occurs. */
  function Times(tasks: seq<Task>, t: Task): nat {
    if tasks == [] then 0 else Times(tasks[..|tasks| - 1], t) + if tasks[|tasks| - 1] == t then 1 else 0
  }

  lemma {:induction false} TimesConcat(a: seq<Task>, b: seq<Task>, t: Task)
    ensures Times(a + b, t) == Times(a, t) + Times(b, t)
    decreases |b|
  {
    if b == [] {
      assert a + b == a;
    } else {
      TimesConcat(a, b[..|b| - 1], t);
      assert (a + b)[..|a + b| - 1] == a + b[..|b| - 1];
    }
  }

  lemma TimesOne(x: Task, t: Task)
    ensures Times([x], t) == if x == t then 1 else 0
  {
    assert [x][..0] == [];
  }

  lemma {:induction false} SetWorker(workers: seq<Worker>, w: nat, x: Worker, t: Task)
    requires w < |workers|
    ensures Busy(workers[w := x]) == Busy(workers) - (if workers[w].Idle? then 0 else 1) + (if x.Idle? then 0 else 1)
    ensures InFlight(workers[w := x], t)
         == InFlight(workers, t) - (if workers[w] == Running(t) then 1 else 0) + (if x == Running(t) then 1 else 0)
    decreases |workers|
  {
    var front := workers[..|workers| - 1];
    if w == |workers| - 1 {
      assert workers[w := x][..w] == front;
    } else {
      SetWorker(front, w, x, t);
      assert workers[w := x][..|workers| - 1] == front[w := x];
    }
  }

  lemma {:induction false} AllIdle(n: nat, t: Task)
    ensures Busy(seq(n, _ => Idle)) == 0 && InFlight(seq(n, _ => Idle), t) == 0
  {
    if n > 0 {
      AllIdle(n - 1, t);
      assert seq(n, _ => Idle)[..n - 1] == seq(n - 1, _ => Idle);
    }
  }

  lemma {:induction false} NoneBusy(workers: seq<Worker>, t: Task)
    requires Busy(workers) == 0
    ensures InFlight(workers, t) == 0
    ensures forall w :: 0 <= w < |workers| ==> workers[w].Idle?
  {
    if workers != [] {
      NoneBusy(workers[..|workers| - 1], t);
    }
  }

  lemma {:induction false} SomeBusy(workers: seq<Worker>) returns (w: nat)
    requires Busy(workers) > 0
    ensures w < |workers| && !workers[w].Idle?
  {
    w := |workers| - 1;
    if workers[w].Idle? {
      w := SomeBusy(workers[..w]);
    }
  }

  /** The reports of the tasks that return one, in order. */
  function Reports(outcomes: Outcomes, tasks: seq<Task>): seq<Report> {
    if tasks == [] then []
    else
      var front := Reports(outcomes, tasks[..|tasks| - 1]);
      match outcomes(tasks[|tasks| - 1])
      case None => front
      case Some(r) => front + [r]
  }

  function SumErrors(reports: seq<Report>): int {
    if reports == [] then 0 else SumErrors(reports[..|reports| - 1]) + reports[|reports| - 1].errors
  }

  function TaskErrors(outcomes: Outcomes, t: Task): int {
    match outcomes(t) case None => 0 case Some(r) => r.errors
  }

  /** The errors of all tasks that return a report. */
  function TotalErrors(outcomes: Outcomes, tasks: seq<Task>): int {
    if tasks == [] then 0 else TotalErrors(outcomes, tasks[..|tasks| - 1]) + TaskErrors(outcomes, tasks[|tasks| - 1])
  }

  lemma {:induction false} ReportsSum(outcomes: Outcomes, tasks: seq<Task>)
    ensures SumErrors(Reports(outcomes, tasks)) == TotalErrors(outcomes, tasks)
  {
    if tasks != [] {
      var front := tasks[..|tasks| - 1];
      ReportsSum(outcomes, front);
      if outcomes(tasks[|tasks| - 1]).Some? {
        var r := outcomes(tasks[|tasks| - 1]).value;
        assert (Reports(outcomes, front) + [r])[..|Reports(outcomes, front)|] == Reports(outcomes, front);
      }
    }
  }

  lemma {:induction false} TotalWithout(outcomes: Outcomes, tasks: seq<Task>, i: nat)
    requires i < |tasks|
    ensures TotalErrors(outcomes, tasks)
         == TotalErrors(outcomes, tasks[..i] + tasks[i + 1..]) + TaskErrors(outcomes, tasks[i])
    decreases |tasks|
  {
    var n := |tasks| - 1;
    if i == n {
      assert tasks[..i] + tasks[i + 1..] == tasks[..n];
    } else {
      var front := tasks[..n];
      TotalWithout(outcomes, front, i);
      assert (tasks[..i] + tasks[i + 1..])[..n - 1] == front[..i] + front[i + 1..];
    }
  }

  lemma {:induction false} Occurs(tasks: seq<Task>, t: Task) returns (i: nat)
    requires Times(tasks, t) > 0
    ensures i < |tasks| && tasks[i] == t
  {
    i := |tasks| - 1;
    if tasks[i] != t {
      i := Occurs(tasks[..i], t);
    }
  }

  lemma TimesWithout(tasks: seq<Task>, i: nat, t: Task)
    requires i < |tasks|
    ensures Times(tasks, t) == Times(tasks[..i] + tasks[i + 1..], t) + if tasks[i] == t then 1 else 0
  {
    assert tasks == tasks[..i] + ([tasks[i]] + tasks[i + 1..]);
    TimesConcat(tasks[..i], [tasks[i]] + tasks[i + 1..], t);
    TimesConcat([tasks[i]], tasks[i + 1..], t);
    TimesConcat(tasks[..i], tasks[i + 1..], t);
    TimesOne(tasks[i], t);
  }

  ghost predicate SameTasks(a: seq<Task>, b: seq<Task>) {
    forall t :: Times(a, t) == Times(b, t)
  }

  /** The total does not depend on the order in which tasks ran. */
  lemma {:induction false} TotalIsOrderFree(outcomes: Outcomes, a: seq<Task>, b: seq<Task>)
    requires SameTasks(a, b)
    ensures TotalErrors(outcomes, a) == TotalErrors(outcomes, b)
    decreases |b|
  {
    assert a != [] ==> Times(a, a[|a| - 1]) == Times(b, a[|a| - 1]);
    if b != [] {
      var n, t := |b| - 1, b[|b| - 1];
      assert Times(a, t) == Times(b, t);
      var i := Occurs(a, t);
      var a' := a[..i] + a[i + 1..];
      forall x ensures Times(a', x) == Times(b[..n], x) {
        TimesWithout(a, i, x);
        assert Times(a, x) == Times(b, x);
      }
      TotalIsOrderFree(outcomes, a', b[..n]);
      TotalWithout(outcomes, a, i);
    }
  }

  // ----- the invariant -----

  function Taken(phase: Phase): seq<Report> {
    if phase.Draining? || phase.Returned? then phase.taken else []
  }

  ghost predicate Inv(outcomes: Outcomes, s: State) {
    && s.unfinished == |s.pending| + Busy(s.workers)
    && (forall t :: Times(s.submitted, t) == Times(s.pending, t) + InFlight(s.workers, t) + Times(s.ran, t))
    && Taken(s.phase) + s.results == Reports(outcomes, s.ran)
    && s.unread == |s.results|
    && (s.phase.Draining? || s.phase.Returned? ==> s.unfinished == 0 && s.phase.errors == SumErrors(s.phase.taken))
    && (s.phase.Returned? ==> s.results == [])
  }

  lemma InvInit(outcomes: Outcomes, workers: nat)
    ensures Inv(outcomes, Init(workers))
  {
    AllIdle(workers, 0);
    forall t ensures InFlight(Init(workers).workers, t) == 0 {
      AllIdle(workers, t);
    }
  }

  lemma InvGet(outcomes: Outcomes, s: State, w: nat)
    requires Inv(outcomes, s) && Enabled(s, Get(w))
    ensures Inv(outcomes, Apply(outcomes, s, Get(w)))
  {
    var x := s.pending[0];
    SetWorker(s.workers, w, Running(x), 0);
    forall t
      ensures Times(s.submitted, t)
           == Times(s.pending[1..], t) + InFlight(s.workers[w := Running(x)], t) + Times(s.ran, t)
    {
      SetWorker(s.workers, w, Running(x), t);
      assert s.pending == [x] + s.pending[1..];
      TimesConcat([x], s.pending[1..], t);
      TimesOne(x, t);
      assert Times(s.submitted, t) == Times(s.pending, t) + InFlight(s.workers, t) + Times(s.ran, t);
    }
  }

  lemma InvPut(outcomes: Outcomes, s: State, w: nat)
    requires Inv(outcomes, s) && Enabled(s, PutResult(w))
    ensures Inv(outcomes, Apply(outcomes, s, PutResult(w)))
  {
    var x := s.workers[w].task;
    SetWorker(s.workers, w, Finishing(x), 0);
    forall t
      ensures Times(s.submitted, t)
           == Times(s.pending, t) + InFlight(s.workers[w := Finishing(x)], t) + Times(s.ran + [x], t)
    {
      SetWorker(s.workers, w, Finishing(x), t);
      TimesConcat(s.ran, [x], t);
      TimesOne(x, t);
      assert Times(s.submitted, t) == Times(s.pending, t) + InFlight(s.workers, t) + Times(s.ran, t);
    }
    StillWaiting(outcomes, s, w);
    assert (s.ran + [x])[..|s.ran|] == s.ran;
    if outcomes(x).Some? {
      var r := outcomes(x).value;
      assert Taken(s.phase) + (s.results + [r]) == (Taken(s.phase) + s.results) + [r];
    }
  }

  /** While a worker is busy, `join` has not passed its wait. */
  lemma StillWaiting(outcomes: Outcomes, s: State, w: nat)
    requires Inv(outcomes, s) && w < |s.workers| && !s.workers[w].Idle?
    ensures s.phase.Submitting? || s.phase.Waiting?
  {
    if Busy(s.workers) == 0 {
      NoneBusy(s.workers, 0);
    }
  }

  lemma InvDone(outcomes: Outcomes, s: State, w: nat)
    requires Inv(outcomes, s) && Enabled(s, TaskDone(w))
    ensures Inv(outcomes, Apply(outcomes, s, TaskDone(w)))
  {
    StillWaiting(outcomes, s, w);
    SetWorker(s.workers, w, Idle, 0);
    forall t
      ensures Times(s.submitted, t) == Times(s.pending, t) + InFlight(s.workers[w := Idle], t) + Times(s.ran, t)
    {
      SetWorker(s.workers, w, Idle, t);
      assert Times(s.submitted, t) == Times(s.pending, t) + InFlight(s.workers, t) + Times(s.ran, t);
    }
  }

  lemma InvDrain(outcomes: Outcomes, s: State)
    requires Inv(outcomes, s) && Enabled(s, Drain)
    ensures Inv(outcomes, Apply(outcomes, s, Drain))
  {
    var r, taken := s.results[0], s.phase.taken;
    assert taken + s.results == (taken + [r]) + s.results[1..];
    assert (taken + [r])[..|taken|] == taken;
  }

  /** Every step keeps the invariant. */
  lemma InvStep(outcomes: Outcomes, s: State, step: Step)
    requires Inv(outcomes, s) && Enabled(s, step)
    ensures Inv(outcomes, Apply(outcomes, s, step))
  {
    match step
    case Submit(x) =>
      forall t
        ensures Times(s.submitted + [x], t) == Times(s.pending + [x], t) + InFlight(s.workers, t) + Times(s.ran, t)
      {
        TimesConcat(s.submitted, [x], t);
        TimesConcat(s.pending, [x], t);
        assert Times(s.submitted, t) == Times(s.pending, t) + InFlight(s.workers, t) + Times(s.ran, t);
      }
    case Get(w) => InvGet(outcomes, s, w);
    case PutResult(w) => InvPut(outcomes, s, w);
    case TaskDone(w) => InvDone(outcomes, s, w);
    case Drain => InvDrain(outcomes, s);
    case _ =>
  }

  lemma {:induction false} InvReachable(outcomes: Outcomes, workers: nat, steps: seq<Step>, s: State)
    requires Exec(outcomes, Init(workers), steps) == Some(s)
    ensures Inv(outcomes, s) && |s.workers| == workers
    decreases |steps|
  {
    if steps == [] {
      InvInit(outcomes, workers);
    } else {
      var before := Exec(outcomes, Init(workers), steps[..|steps| - 1]).value;
      InvReachable(outcomes, workers, steps[..|steps| - 1], before);
      InvStep(outcomes, before, steps[|steps| - 1]);
    }
  }

  // ----- what join promises -----

  /** In every interleaving: once `join` has passed its wait, every submitted task has run exactly
      once; and what `join` returns is the sum of the errors of all reports. */
  lemma JoinIsComplete(outcomes: Outcomes, workers: nat, steps: seq<Step>, s: State)
    requires Exec(outcomes, Init(workers), steps) == Some(s)
    ensures s.unfinished == |s.pending| + Busy(s.workers)
    ensures s.phase.Draining? || s.phase.Returned? ==> SameTasks(s.ran, s.submitted)
    ensures s.phase.Returned? ==>
              s.phase.errors == TotalErrors(outcomes, s.submitted) && s.phase.taken == Reports(outcomes, s.ran)
  {
    InvReachable(outcomes, workers, steps, s);
    if s.phase.Draining? || s.phase.Returned? {
      forall t ensures Times(s.ran, t) == Times(s.submitted, t) {
        NoneBusy(s.workers, t);
      }
    }
    if s.phase.Returned? {
      assert s.phase.taken + [] == s.phase.taken;
      ReportsSum(outcomes, s.ran);
      TotalIsOrderFree(outcomes, s.ran, s.submitted);
    }
  }

  /** With at least one worker, `join` never gets stuck. */
  lemma JoinNeverSticks(outcomes: Outcomes, workers: nat, steps: seq<Step>, s: State) returns (step: Step)
    requires workers > 0 && Exec(outcomes, Init(workers), steps) == Some(s)
    requires !s.phase.Submitting? && !s.phase.Returned?
    ensures Enabled(s, step)
  {
    InvReachable(outcomes, workers, steps, s);
    if s.phase.Draining? {
      step := if s.results != [] then Drain else Return;
    } else if s.unfinished == 0 {
      step := PassWait;
    } else if Busy(s.workers) > 0 {
      var w := SomeBusy(s.workers);
      step := if s.workers[w].Running? then PutResult(w) else TaskDone(w);
    } else {
      NoneBusy(s.workers, 0);
      step := Get(0);
    }
  }

  function Load(workers: seq<Worker>): nat {
    if workers == [] then 0
    else Load(workers[..|workers| - 1]) + Weight(workers[|workers| - 1])
  }

  function Weight(w: Worker): nat {
    match w case Idle => 0 case Running(_) => 3 case Finishing(_) => 1
  }

  lemma {:induction false} SetLoad(workers: seq<Worker>, w: nat, x: Worker)
    requires w < |workers|
    ensures Load(workers[w := x]) == Load(workers) - Weight(workers[w]) + Weight(x)
    decreases |workers|
  {
    var front := workers[..|workers| - 1];
    if w == |workers| - 1 {
      assert workers[w := x][..w] == front;
    } else {
      SetLoad(front, w, x);
      assert workers[w := x][..|workers| - 1] == front[w := x];
    }
  }

  function Measure(s: State): nat {
    4 * |s.pending| + Load(s.workers) + |s.results|
    + match s.phase case Submitting => 3 case Waiting => 2 case Draining(_, _) => 1 case Returned(_, _) => 0
  }

  /** Every step but a submission brings the run closer to its end, so `join` returns. */
  lemma StepsRunOut(outcomes: Outcomes, s: State, step: Step)
    requires Enabled(s, step) && !step.Submit?
    ensures Measure(Apply(outcomes, s, step)) < Measure(s)
  {
    match step
    case Get(w) => SetLoad(s.workers, w, Running(s.pending[0]));
    case PutResult(w) => SetLoad(s.workers, w, Finishing(s.workers[w].task));
    case TaskDone(w) => SetLoad(s.workers, w, Idle);
    case _ =>
  }

  function Submits(steps: seq<Step>): nat {
    if steps == [] then 0 else Submits(steps[..|steps| - 1]) + if steps[|steps| - 1].Submit? then 1 else 0
  }

  /** However the threads are scheduled, a run has at most five steps for each submission and the
      steps that its first state still had to make. */
  lemma {:induction false} RunsAreBounded(outcomes: Outcomes, s: State, steps: seq<Step>)
    requires Exec(outcomes, s, steps).Some?
    ensures |steps| + Measure(Exec(outcomes, s, steps).value) <= Measure(s) + 5 * Submits(steps)
    decreases |steps|
  {
    if steps != [] {
      var front, last := steps[..|steps| - 1], steps[|steps| - 1];
      RunsAreBounded(outcomes, s, front);
      if !last.Submit? {
        StepsRunOut(outcomes, Exec(outcomes, s, front).value, last);
      }
    }
  }

  lemma ExecStep(outcomes: Outcomes, from: State, steps: seq<Step>, s: State, step: Step)
    requires Exec(outcomes, from, steps) == Some(s) && Enabled(s, step)
    ensures Exec(outcomes, from, steps + [step]) == Some(Apply(outcomes, s, step))
    ensures !s.phase.Submitting? ==>
              !Apply(outcomes, s, step).phase.Submitting? && Apply(outcomes, s, step).submitted == s.submitted
  {
    assert (steps + [step])[..|steps|] == steps;
  }

  /** From every reachable state in which `join` was called, `join` can return, and what it returns
      is the errors of all submitted tasks. */
  lemma {:induction false} JoinReturns(outcomes: Outcomes, workers: nat, steps: seq<Step>, s: State)
    returns (more: seq<Step>, end: State)
    requires workers > 0 && Exec(outcomes, Init(workers), steps) == Some(s) && !s.phase.Submitting?
    ensures Exec(outcomes, Init(workers), steps + more) == Some(end)
    ensures end.phase.Returned? && end.submitted == s.submitted
    ensures end.phase.errors == TotalErrors(outcomes, s.submitted)
    decreases Measure(s)
  {
    if s.phase.Returned? {
      more, end := [], s;
      assert steps + [] == steps;
      JoinIsComplete(outcomes, workers, steps, s);
    } else {
      var step := JoinNeverSticks(outcomes, workers, steps, s);
      ExecStep(outcomes, Init(workers), steps, s, step);
      StepsRunOut(outcomes, s, step);
      var rest;
      rest, end := JoinReturns(outcomes, workers, steps + [step], Apply(outcomes, s, step));
      more := [step] + rest;
      Regroup(steps, step, rest);
    }
  }

  lemma Regroup(steps: seq<Step>, step: Step, rest: seq<Step>)
    ensures steps + ([step] + rest) == steps + [step] + rest
  {
  }

  // ----- exit status -----

  /** `sys.exit(errors > 0)` */
  function ExitStatus(errors: int): int { if errors > 0 then 1 else 0 }

  /** The status that goes with `errors` is 1 if one of the tasks reported something but 0, and else 0. */
  ghost predicate Tells(outcomes: Outcomes, tasks: seq<Task>, errors: int) {
    ExitStatus(errors) == if exists t :: t in tasks && TaskErrors(outcomes, t) != 0 then 1 else 0
  }

  /** Whatever is submitted and however the threads are scheduled, the exit status tells. */
  ghost predicate EveryRunTells(outcomes: Outcomes, workers: nat) {
    forall steps, s :: Exec(outcomes, Init(workers), steps) == Some(s) && s.phase.Returned? ==>
      Tells(outcomes, s.submitted, s.phase.errors)
  }

  lemma {:induction false} TotalOfCounts(outcomes: Outcomes, tasks: seq<Task>)
    requires forall t :: t in tasks ==> TaskErrors(outcomes, t) >= 0
    ensures TotalErrors(outcomes, tasks) >= 0 && Tells(outcomes, tasks, TotalErrors(outcomes, tasks))
  {
    if tasks != [] {
      var front, last := tasks[..|tasks| - 1], tasks[|tasks| - 1];
      assert tasks == front + [last];
      TotalOfCounts(outcomes, front);
      if t :| t in front && TaskErrors(outcomes, t) != 0 {
        assert t in tasks;
      }
    }
  }

  /** `exit` is documented to exit with 1 if there were errors. It does so in every run exactly if
      no task can report a negative count. */
  lemma ExitStatusIsVerdict(outcomes: Outcomes, workers: nat)
    requires workers > 0
    ensures EveryRunTells(outcomes, workers) <==> forall t :: TaskErrors(outcomes, t) >= 0
  {
    if forall t :: TaskErrors(outcomes, t) >= 0 {
      forall steps, s | Exec(outcomes, Init(workers), steps) == Some(s) && s.phase.Returned?
        ensures Tells(outcomes, s.submitted, s.phase.errors)
      {
        JoinIsComplete(outcomes, workers, steps, s);
        TotalOfCounts(outcomes, s.submitted);
      }
    } else {
      var t :| TaskErrors(outcomes, t) < 0;
      var steps, end := NegativeCountIsMissed(outcomes, workers, t);
    }
  }

  /** A run that submits only a task with a negative count exits with 0. */
  lemma NegativeCountIsMissed(outcomes: Outcomes, workers: nat, t: Task) returns (steps: seq<Step>, end: State)
    requires workers > 0 && TaskErrors(outcomes, t) < 0
    ensures Exec(outcomes, Init(workers), steps) == Some(end) && end.phase.Returned?
    ensures ExitStatus(end.phase.errors) == 0 && !Tells(outcomes, end.submitted, end.phase.errors)
  {
    var submitted := Apply(outcomes, Init(workers), Submit(t));
    ExecStep(outcomes, Init(workers), [], Init(workers), Submit(t));
    ExecStep(outcomes, Init(workers), [Submit(t)], submitted, CallJoin);
    var waiting := Apply(outcomes, submitted, CallJoin);
    assert [] + [Submit(t)] == [Submit(t)];
    var more;
    more, end := JoinReturns(outcomes, workers, [Submit(t)] + [CallJoin], waiting);
    steps := [Submit(t)] + [CallJoin] + more;
    assert end.submitted == [t] && [t][..0] == [];
    assert TotalErrors(outcomes, [t]) == TaskErrors(outcomes, t);
    assert t in [t];
  }

  /** One linter killed by signal 9 beside one that found nothing goes unnoticed. */
  lemma KilledLinterGoesUnnoticed()
    ensures var reports := [Report(0, ""), Report(-9, "")];
            ExitStatus(SumErrors(reports)) == 0 && exists r :: r in reports && r.errors != 0
  {
    var reports := [Report(0, ""), Report(-9, "")];
    assert reports[..1] == [Report(0, "")] && [Report(0, "")][..0] == [];
    assert reports[1] in reports;
  }
}
