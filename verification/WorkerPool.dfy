/** The bounded worker pool of api/concurrent: buffered channels, a wait group and workers,
    as a step system driven by an arbitrary schedule. */
module WorkerPool {
  import opened Wrappers
  import opened Tally

  /** What one task returns: a result and perhaps an error. */
  datatype Result<V, E> = Result(value: V, err: Option<E>)

  /** The call's arguments: n tasks, of which the i-th returns `outcome(i)` when it is run. */
  datatype Call<!V, !E> = Call(n: nat, outcome: nat -> Result<V, E>, maxConcurrency: int) {
    /** The number of workers that are started. */
    function Workers(): nat {
      if maxConcurrency <= 0 then n else maxConcurrency
    }

    function Outcomes(tasks: seq<nat>): seq<Result<V, E>> {
      seq(|tasks|, i requires 0 <= i < |tasks| => outcome(tasks[i]))
    }
  }

  datatype Worker = Idle | Executing(task: nat) | Sending(task: nat) | Exited

  datatype Answer<V, E> = Results(results: seq<Result<V, E>>) | Error(err: E)

  datatype Main<V, E> = Spawning | Feeding(next: nat) | Waiting | Collecting | Returned(answer: Answer<V, E>)

  /** Tasks, and their results in `resultChan`, are named by the task's position in the call.
      `executed` records the order in which tasks were run. */
  datatype State<V, E> = State(
    main: Main<V, E>,
    workers: seq<Worker>,
    taskChan: seq<nat>,
    taskChanClosed: bool,
    resultChan: seq<nat>,
    resultChanClosed: bool,
    wg: nat,
    collected: seq<nat>,
    executed: seq<nat>)

  datatype Step =
    | Spawn
    | StopSpawning
    | Feed
    | CloseTasks
    | Receive(w: nat)
    | Execute(w: nat)
    | Send(w: nat)
    | Exit(w: nat)
    | WaitDone
    | Collect
    | CollectDone

  function Init<V, E>(): State<V, E> {
    State(Spawning, [], [], false, [], false, 0, [], [])
  }

  /** Where a step's owner has reached the step's program point. */
  predicate AtPoint<V, E>(c: Call<V, E>, s: State<V, E>, step: Step) {
    match step
    case Spawn => s.main.Spawning? && |s.workers| < c.Workers()
    case StopSpawning => s.main.Spawning? && |s.workers| >= c.Workers()
    case Feed => s.main.Feeding? && s.main.next < c.n
    case CloseTasks => s.main.Feeding? && s.main.next >= c.n
    case Receive(w) => w < |s.workers| && s.workers[w].Idle?
    case Execute(w) => w < |s.workers| && s.workers[w].Executing?
    case Send(w) => w < |s.workers| && s.workers[w].Sending?
    case Exit(w) => w < |s.workers| && s.workers[w].Idle?
    case WaitDone => s.main.Waiting?
    case Collect => s.main.Collecting?
    case CollectDone => s.main.Collecting?
  }

  /** Whether the step can be taken now: a send waits for buffer room and panics on a closed
      channel, a receive waits for an element or for the channel to be closed, and the wait
      group waits for a zero counter. */
  predicate Enabled<V, E>(c: Call<V, E>, s: State<V, E>, step: Step) {
    && AtPoint(c, s, step)
    && match step
       case Feed => |s.taskChan| < c.n && !s.taskChanClosed
       case Receive(_) => s.taskChan != []
       case Send(_) => |s.resultChan| < c.n && !s.resultChanClosed
       case Exit(_) => s.taskChan == [] && s.taskChanClosed && s.wg > 0
       case WaitDone => s.wg == 0
       case Collect => s.resultChan != []
       case CollectDone => s.resultChan == [] && s.resultChanClosed
       case _ => true
  }

  function Apply<V, E>(c: Call<V, E>, s: State<V, E>, step: Step): State<V, E>
    requires Enabled(c, s, step)
  {
    match step
    case Spawn => s.(workers := s.workers + [Idle], wg := s.wg + 1)
    case StopSpawning => s.(main := Feeding(0))
    case Feed => s.(main := Feeding(s.main.next + 1), taskChan := s.taskChan + [s.main.next])
    case CloseTasks => s.(main := Waiting, taskChanClosed := true)
    case Receive(w) => s.(workers := s.workers[w := Executing(s.taskChan[0])], taskChan := s.taskChan[1..])
    case Execute(w) =>
      var task := s.workers[w].task;
      s.(workers := s.workers[w := Sending(task)], executed := s.executed + [task])
    case Send(w) => s.(workers := s.workers[w := Idle], resultChan := s.resultChan + [s.workers[w].task])
    case Exit(w) => s.(workers := s.workers[w := Exited], wg := s.wg - 1)
    case WaitDone => s.(main := Collecting, resultChanClosed := true)
    case Collect =>
      var rest := s.(resultChan := s.resultChan[1..]);
      (match c.outcome(s.resultChan[0]).err
       case Some(e) => rest.(main := Returned(Error(e)))
       case None => rest.(collected := s.collected + [s.resultChan[0]]))
    case CollectDone => s.(main := Returned(Results(c.Outcomes(s.collected))))
  }

  /** The state a schedule leads to, when each of its steps can be taken in turn. */
  ghost function Run<V, E>(c: Call<V, E>, schedule: seq<Step>): Option<State<V, E>> {
    if schedule == [] then Some(Init())
    else
      var last := |schedule| - 1;
      match Run(c, schedule[..last])
      case None => None
      case Some(s) => if Enabled(c, s, schedule[last]) then Some(Apply(c, s, schedule[last])) else None
  }

  // ----- the invariant

  /** How often task t is in a worker's hands, and how often it has been run there. */
  ghost function Holds(t: nat): Worker -> nat {
    (w: Worker) => if (w.Executing? || w.Sending?) && w.task == t then 1 else 0
  }

  ghost function Ran(t: nat): Worker -> nat {
    (w: Worker) => if w.Sending? && w.task == t then 1 else 0
  }

  ghost function Live(w: Worker): nat { if w.Exited? then 0 else 1 }

  ghost function Sent<V, E>(c: Call<V, E>, s: State<V, E>): nat {
    match s.main
    case Spawning => 0
    case Feeding(k) => k
    case _ => c.n
  }

  /** How often task t has left its worker: its result is queued or collected. */
  ghost function Finished<V, E>(s: State<V, E>, t: nat): nat {
    multiset(s.resultChan)[t] + multiset(s.collected)[t]
  }

  /** A task handed over is in exactly one place, and has been run as often as it is past
      execution. */
  ghost predicate ConservedAt<V, E>(c: Call<V, E>, s: State<V, E>, t: nat) {
    && multiset(s.taskChan)[t] + Sum(s.workers, Holds(t)) + Finished(s, t) == (if t < Sent(c, s) then 1 else 0)
    && multiset(s.executed)[t] == Sum(s.workers, Ran(t)) + Finished(s, t)
  }

  ghost predicate Conserved<V, E>(c: Call<V, E>, s: State<V, E>) {
    forall t: nat :: ConservedAt(c, s, t)
  }

  ghost predicate Phased<V, E>(c: Call<V, E>, s: State<V, E>) {
    && |s.workers| <= c.Workers()
    && (!s.main.Spawning? ==> |s.workers| == c.Workers())
    && (s.main.Feeding? ==> s.main.next <= c.n)
    && s.taskChanClosed == (s.main.Waiting? || s.main.Collecting? || s.main.Returned?)
    && s.resultChanClosed == (s.main.Collecting? || s.main.Returned?)
    && s.wg == Sum(s.workers, Live)
    && (s.resultChanClosed ==> s.wg == 0)
    && ((exists w :: 0 <= w < |s.workers| && s.workers[w].Exited?) ==> s.taskChan == [] && s.taskChanClosed)
  }

  /** A permutation of the tasks. */
  ghost predicate Ordering(order: seq<nat>, n: nat) {
    multiset(order) == Below(n)
  }

  /** The pool's promise about its answer: all results, permuted, when no task failed; otherwise
      the error of some failed task. */
  ghost predicate Answers<V, E>(c: Call<V, E>, a: Answer<V, E>) {
    match a
    case Results(rs) =>
      && (forall i: nat :: i < c.n ==> c.outcome(i).err.None?)
      && exists order :: Ordering(order, c.n) && rs == c.Outcomes(order)
    case Error(e) => exists i: nat :: i < c.n && c.outcome(i).err == Some(e)
  }

  ghost predicate Inv<V, E>(c: Call<V, E>, s: State<V, E>) {
    && Phased(c, s)
    && (forall i :: 0 <= i < |s.collected| ==> c.outcome(s.collected[i]).err.None?)
    && (!s.main.Returned? ==> Conserved(c, s))
    && (!s.main.Collecting? && !s.main.Returned? ==> s.collected == [])
    && (s.main.Returned? ==> multiset(s.executed) == Below(c.n) && Answers(c, s.main.answer))
  }

  // ----- every step keeps the invariant

  lemma PopFront(q: seq<nat>, t: nat)
    requires q != []
    ensures multiset(q)[t] == multiset(q[1..])[t] + if q[0] == t then 1 else 0
  {
    assert q == [q[0]] + q[1..];
  }

  lemma WorkerStepConservesAt<V, E>(c: Call<V, E>, s: State<V, E>, step: Step, t: nat)
    requires ConservedAt(c, s, t) && Enabled(c, s, step)
    requires step.Receive? || step.Execute? || step.Send? || step.Exit?
    ensures ConservedAt(c, Apply(c, s, step), t)
  {
    var w, worker' := step.w, Apply(c, s, step).workers[step.w];
    SumUpdate(s.workers, w, worker', Holds(t));
    SumUpdate(s.workers, w, worker', Ran(t));
    if step.Receive? {
      PopFront(s.taskChan, t);
    }
  }

  lemma WorkerStepConserves<V, E>(c: Call<V, E>, s: State<V, E>, step: Step)
    requires Conserved(c, s) && Enabled(c, s, step)
    requires step.Receive? || step.Execute? || step.Send? || step.Exit?
    ensures Conserved(c, Apply(c, s, step))
  {
    forall t: nat ensures ConservedAt(c, Apply(c, s, step), t) {
      assert ConservedAt(c, s, t);
      WorkerStepConservesAt(c, s, step, t);
    }
  }

  lemma WorkerStepKeepsPhase<V, E>(c: Call<V, E>, s: State<V, E>, step: Step)
    requires Phased(c, s) && Enabled(c, s, step)
    requires step.Receive? || step.Execute? || step.Send? || step.Exit?
    ensures Phased(c, Apply(c, s, step))
  {
    var s' := Apply(c, s, step);
    SumUpdate(s.workers, step.w, s'.workers[step.w], Live);
    SumAtLeast(s.workers, step.w, Live);
    assert forall v :: 0 <= v < |s'.workers| && v != step.w ==> s'.workers[v] == s.workers[v];
  }

  lemma MainStepConservesAt<V, E>(c: Call<V, E>, s: State<V, E>, step: Step, t: nat)
    requires Phased(c, s) && ConservedAt(c, s, t) && Enabled(c, s, step)
    requires !step.Receive? && !step.Execute? && !step.Send? && !step.Exit?
    requires !Apply(c, s, step).main.Returned?
    ensures ConservedAt(c, Apply(c, s, step), t)
  {
    if step.Spawn? {
      SumAppend(s.workers, Idle, Holds(t));
      SumAppend(s.workers, Idle, Ran(t));
    } else if step.Collect? {
      PopFront(s.resultChan, t);
    }
  }

  lemma MainStepConserves<V, E>(c: Call<V, E>, s: State<V, E>, step: Step)
    requires Phased(c, s) && Conserved(c, s) && Enabled(c, s, step)
    requires !step.Receive? && !step.Execute? && !step.Send? && !step.Exit?
    requires !Apply(c, s, step).main.Returned?
    ensures Conserved(c, Apply(c, s, step))
  {
    forall t: nat ensures ConservedAt(c, Apply(c, s, step), t) {
      assert ConservedAt(c, s, t);
      MainStepConservesAt(c, s, step, t);
    }
  }

  /** Once every worker has left and the channel of tasks is drained, each task is in one of the
      two places results can be, and was run exactly once. */
  lemma AllFinishedAt<V, E>(c: Call<V, E>, s: State<V, E>, t: nat)
    requires Phased(c, s) && ConservedAt(c, s, t) && s.main.Collecting?
    ensures Finished(s, t) == multiset(s.executed)[t] == if t < c.n then 1 else 0
  {
    SumZero(s.workers, Live);
    AllZero(s.workers, Holds(t));
    AllZero(s.workers, Ran(t));
    if s.workers != [] {
      assert s.workers[0].Exited?;
    }
  }

  lemma AllFinished<V, E>(c: Call<V, E>, s: State<V, E>)
    requires Phased(c, s) && Conserved(c, s) && s.main.Collecting?
    ensures multiset(s.resultChan) + multiset(s.collected) == Below(c.n)
    ensures multiset(s.executed) == Below(c.n)
  {
    BelowCounts(c.n);
    forall t: nat ensures Finished(s, t) == Below(c.n)[t] == multiset(s.executed)[t] {
      assert ConservedAt(c, s, t);
      AllFinishedAt(c, s, t);
    }
  }

  /** A returned answer keeps the promise. */
  lemma ErrorAnswers<V, E>(c: Call<V, E>, s: State<V, E>)
    requires s.resultChan != [] && multiset(s.resultChan) + multiset(s.collected) == Below(c.n)
    requires c.outcome(s.resultChan[0]).err.Some?
    ensures Answers(c, Error(c.outcome(s.resultChan[0]).err.value))
  {
    BelowCounts(c.n);
    var i := s.resultChan[0];
    assert multiset(s.resultChan)[i] > 0;
    assert Below(c.n)[i] > 0;
  }

  lemma ResultsAnswer<V, E>(c: Call<V, E>, collected: seq<nat>)
    requires multiset(collected) == Below(c.n)
    requires forall i :: 0 <= i < |collected| ==> c.outcome(collected[i]).err.None?
    ensures Answers(c, Results(c.Outcomes(collected)))
  {
    BelowCounts(c.n);
    forall i: nat | i < c.n ensures c.outcome(i).err.None? {
      assert multiset(collected)[i] == 1;
      assert i in collected;
    }
    assert Ordering(collected, c.n);
  }

  lemma ReturnKeepsInv<V, E>(c: Call<V, E>, s: State<V, E>, step: Step)
    requires Inv(c, s) && Enabled(c, s, step) && Apply(c, s, step).main.Returned? && !s.main.Returned?
    ensures Inv(c, Apply(c, s, step))
  {
    AllFinished(c, s);
    if step.Collect? {
      ErrorAnswers(c, s);
    } else {
      assert multiset(s.collected) == Below(c.n);
      ResultsAnswer(c, s.collected);
    }
  }

  lemma WorkerStepKeepsInv<V, E>(c: Call<V, E>, s: State<V, E>, step: Step)
    requires Inv(c, s) && Enabled(c, s, step)
    requires step.Receive? || step.Execute? || step.Send? || step.Exit?
    ensures Inv(c, Apply(c, s, step))
  {
    WorkerStepKeepsPhase(c, s, step);
    SumAtLeast(s.workers, step.w, Live);
    WorkerStepConserves(c, s, step);
  }

  lemma MainStepKeepsInv<V, E>(c: Call<V, E>, s: State<V, E>, step: Step)
    requires Inv(c, s) && Enabled(c, s, step) && !Apply(c, s, step).main.Returned?
    requires !step.Receive? && !step.Execute? && !step.Send? && !step.Exit?
    ensures Inv(c, Apply(c, s, step))
  {
    MainStepConserves(c, s, step);
    if step.Spawn? {
      var s' := Apply(c, s, step);
      SumAppend(s.workers, Idle, Live);
      assert forall w :: 0 <= w < |s'.workers| ==> !s'.workers[w].Exited?;
    }
  }

  lemma StepKeepsInv<V, E>(c: Call<V, E>, s: State<V, E>, step: Step)
    requires Inv(c, s) && Enabled(c, s, step)
    ensures Inv(c, Apply(c, s, step))
  {
    if step.Receive? || step.Execute? || step.Send? || step.Exit? {
      WorkerStepKeepsInv(c, s, step);
    } else if Apply(c, s, step).main.Returned? {
      ReturnKeepsInv(c, s, step);
    } else {
      MainStepKeepsInv(c, s, step);
    }
  }

  /** Every schedule, of any length, keeps the invariant. */
  lemma {:induction false} RunKeepsInv<V, E>(c: Call<V, E>, schedule: seq<Step>)
    requires Run(c, schedule).Some?
    ensures Inv(c, Run(c, schedule).value)
  {
    if schedule != [] {
      var last := |schedule| - 1;
      RunKeepsInv(c, schedule[..last]);
      StepKeepsInv(c, Run(c, schedule[..last]).value, schedule[last]);
    }
  }

  // ----- main results

  lemma FeedHasRoom<V, E>(c: Call<V, E>, s: State<V, E>)
    requires Conserved(c, s) && s.main.Feeding? && s.main.next < c.n
    ensures |s.taskChan| < c.n
  {
    var k := s.main.next;
    BelowCounts(k);
    forall t: nat ensures multiset(s.taskChan)[t] <= Below(k)[t] {
      assert ConservedAt(c, s, t);
    }
    SubBagSize(multiset(s.taskChan), Below(k));
  }

  lemma SendHasRoom<V, E>(c: Call<V, E>, s: State<V, E>, w: nat)
    requires Conserved(c, s) && Sent(c, s) <= c.n && w < |s.workers| && s.workers[w].Sending?
    ensures |s.resultChan| < c.n
  {
    var held: seq<nat> := s.resultChan + [s.workers[w].task];
    BelowCounts(c.n);
    forall t: nat ensures multiset(held)[t] <= Below(c.n)[t] {
      assert ConservedAt(c, s, t);
      SumAtLeast(s.workers, w, Holds(t));
    }
    SubBagSize(multiset(held), Below(c.n));
  }

  /** A send never waits, on either channel, and never meets a closed channel. */
  lemma SendsNeverBlock<V, E>(c: Call<V, E>, schedule: seq<Step>, step: Step)
    requires Run(c, schedule).Some? && (step.Feed? || step.Send?)
    requires AtPoint(c, Run(c, schedule).value, step)
    ensures Enabled(c, Run(c, schedule).value, step)
    ensures step.Feed? ==> |Run(c, schedule).value.taskChan| < c.n && !Run(c, schedule).value.taskChanClosed
    ensures step.Send? ==> |Run(c, schedule).value.resultChan| < c.n && !Run(c, schedule).value.resultChanClosed
  {
    RunKeepsInv(c, schedule);
    var s := Run(c, schedule).value;
    if step.Feed? {
      FeedHasRoom(c, s);
    } else {
      SumAtLeast(s.workers, step.w, Live);
      SendHasRoom(c, s, step.w);
    }
  }

  /** No reachable state is stuck before the call has returned. */
  lemma NeverStuck<V, E>(c: Call<V, E>, schedule: seq<Step>) returns (step: Step)
    requires Run(c, schedule).Some? && !Run(c, schedule).value.main.Returned?
    ensures Enabled(c, Run(c, schedule).value, step)
  {
    RunKeepsInv(c, schedule);
    var s := Run(c, schedule).value;
    match s.main
    case Spawning => step := if |s.workers| < c.Workers() then Spawn else StopSpawning;
    case Feeding(k) =>
      step := if k < c.n then Feed else CloseTasks;
      if k < c.n { SendsNeverBlock(c, schedule, step); }
    case Waiting =>
      if s.wg == 0 {
        step := WaitDone;
      } else {
        var w := SomeLive(s.workers);
        SumAtLeast(s.workers, w, Live);
        if s.workers[w].Sending? {
          step := Send(w);
          SendsNeverBlock(c, schedule, step);
        } else if s.workers[w].Executing? {
          step := Execute(w);
        } else {
          step := if s.taskChan == [] then Exit(w) else Receive(w);
        }
      }
    case Collecting => step := if s.resultChan == [] then CollectDone else Collect;
  }

  lemma {:induction false} SomeLive(ws: seq<Worker>) returns (w: nat)
    requires Sum(ws, Live) > 0
    ensures w < |ws| && !ws[w].Exited?
  {
    if ws[0].Exited? {
      w := SomeLive(ws[1..]);
      w := w + 1;
    } else {
      w := 0;
    }
  }

  /** A worker has a task in its hands. */
  ghost function Busy(w: Worker): nat { if w.Executing? || w.Sending? then 1 else 0 }

  lemma {:induction false} BusyBound(ws: seq<Worker>)
    ensures Sum(ws, Busy) <= |ws|
  {
    if ws != [] {
      BusyBound(ws[1..]);
    }
  }

  /** A positive limit is kept: under every schedule no more tasks than that are in workers' hands, and
      just as many workers are started. Without one, a worker is started for each task. */
  lemma LimitIsKept<V, E>(c: Call<V, E>, schedule: seq<Step>)
    requires Run(c, schedule).Some?
    ensures c.maxConcurrency > 0 ==>
              Sum(Run(c, schedule).value.workers, Busy) <= |Run(c, schedule).value.workers| <= c.maxConcurrency
    ensures !Run(c, schedule).value.main.Spawning? ==>
              |Run(c, schedule).value.workers| == if c.maxConcurrency > 0 then c.maxConcurrency else c.n
  {
    RunKeepsInv(c, schedule);
    BusyBound(Run(c, schedule).value.workers);
  }

  lemma RunOneMore<V, E>(c: Call<V, E>, schedule: seq<Step>, step: Step)
    requires Run(c, schedule).Some? && Enabled(c, Run(c, schedule).value, step)
    ensures Run(c, schedule + [step]) == Some(Apply(c, Run(c, schedule).value, step))
  {
    assert (schedule + [step])[..|schedule|] == schedule;
  }

  /** The state in which all workers are idle and the first tasks have been handed over. */
  ghost predicate Ready<V, E>(c: Call<V, E>, s: State<V, E>, workers: nat, tasks: nat) {
    && s.main == Feeding(tasks) && !s.taskChanClosed
    && |s.workers| == workers && (forall w :: 0 <= w < workers ==> s.workers[w].Idle?)
    && |s.taskChan| == tasks && (forall i :: 0 <= i < tasks ==> s.taskChan[i] == i)
  }

  lemma {:induction false} CanSpawn<V, E>(c: Call<V, E>, k: nat) returns (schedule: seq<Step>)
    requires k <= c.Workers()
    ensures Run(c, schedule).Some?
    ensures var s := Run(c, schedule).value;
            && s.main.Spawning? && s.taskChan == [] && !s.taskChanClosed
            && |s.workers| == k && forall w :: 0 <= w < k ==> s.workers[w].Idle?
  {
    if k == 0 {
      schedule := [];
    } else {
      schedule := CanSpawn(c, k - 1);
      RunOneMore(c, schedule, Spawn);
      schedule := schedule + [Spawn];
    }
  }

  lemma {:induction false} CanFeed<V, E>(c: Call<V, E>, k: nat) returns (schedule: seq<Step>)
    requires k <= c.n
    ensures Run(c, schedule).Some? && Ready(c, Run(c, schedule).value, c.Workers(), k)
  {
    if k == 0 {
      schedule := CanSpawn(c, c.Workers());
      RunOneMore(c, schedule, StopSpawning);
      schedule := schedule + [StopSpawning];
    } else {
      schedule := CanFeed(c, k - 1);
      RunOneMore(c, schedule, Feed);
      schedule := schedule + [Feed];
    }
  }

  lemma {:induction false} CanReceive<V, E>(c: Call<V, E>, k: nat, j: nat) returns (schedule: seq<Step>)
    requires j <= k <= c.n && k <= c.Workers()
    ensures Run(c, schedule).Some?
    ensures var s := Run(c, schedule).value;
            && |s.workers| == c.Workers() && |s.taskChan| == k - j && (forall i :: 0 <= i < k - j ==> s.taskChan[i] == j + i)
            && (forall w :: 0 <= w < c.Workers() ==> s.workers[w] == if w < j then Executing(w) else Idle)
  {
    if j == 0 {
      schedule := CanFeed(c, k);
    } else {
      schedule := CanReceive(c, k, j - 1);
      RunOneMore(c, schedule, Receive(j - 1));
      schedule := schedule + [Receive(j - 1)];
    }
  }

  /** And it can be reached: as many tasks as there are, and as the limit allows, can be executing at
      once. */
  lemma LimitIsReached<V, E>(c: Call<V, E>, k: nat) returns (schedule: seq<Step>)
    requires k <= c.n && (c.maxConcurrency > 0 ==> k <= c.maxConcurrency)
    ensures Run(c, schedule).Some? && k <= |Run(c, schedule).value.workers|
    ensures forall w :: 0 <= w < k ==> Run(c, schedule).value.workers[w] == Executing(w)
  {
    schedule := CanReceive(c, k, k);
  }

  /** The results are those of the tasks named, each in its place. */
  ghost predicate Lists<V, E>(c: Call<V, E>, rs: seq<Result<V, E>>, order: seq<nat>) {
    |rs| == |order| && forall k :: 0 <= k < |rs| ==> rs[k] == c.outcome(order[k])
  }

  /** When the call returns, each task has been run exactly once, and the answer is a permutation
      of the results if no task failed and a failed task's error otherwise. */
  lemma ReturnsWhatTheTasksReturned<V, E>(c: Call<V, E>, schedule: seq<Step>)
    requires Run(c, schedule).Some? && Run(c, schedule).value.main.Returned?
    ensures forall t: nat :: multiset(Run(c, schedule).value.executed)[t] == if t < c.n then 1 else 0
    ensures Answers(c, Run(c, schedule).value.main.answer)
    ensures Run(c, schedule).value.main.answer.Results? <==> forall i: nat :: i < c.n ==> c.outcome(i).err.None?
    ensures Run(c, schedule).value.main.answer.Results? ==>
              exists order :: Ordering(order, c.n) && Lists(c, Run(c, schedule).value.main.answer.results, order)
  {
    RunKeepsInv(c, schedule);
    BelowCounts(c.n);
    match Run(c, schedule).value.main.answer
    case Results(rs) =>
      var order :| Ordering(order, c.n) && rs == c.Outcomes(order);
      assert Lists(c, rs, order);
    case Error(_) =>
  }

  /** What is left to do: spawning, five steps a task, each worker's exit, and main's own phases. */
  ghost function Measure<V, E>(c: Call<V, E>, s: State<V, E>): int {
    2 * (c.Workers() - |s.workers|) + 5 * (c.n - Sent(c, s)) + 4 * |s.taskChan| + Sum(s.workers, Owes) + |s.resultChan|
    + match s.main
      case Spawning => 4
      case Feeding(_) => 3
      case Waiting => 2
      case Collecting => 1
      case Returned(_) => 0
  }

  /** Steps a worker still owes: finishing its task, and exiting. */
  ghost function Owes(w: Worker): nat {
    match w
    case Idle => 1
    case Executing(_) => 4
    case Sending(_) => 3
    case Exited => 0
  }

  lemma WorkerStepDecreases<V, E>(c: Call<V, E>, s: State<V, E>, step: Step)
    requires Enabled(c, s, step) && (step.Receive? || step.Execute? || step.Send? || step.Exit?)
    ensures Measure(c, Apply(c, s, step)) < Measure(c, s)
  {
    SumUpdate(s.workers, step.w, Apply(c, s, step).workers[step.w], Owes);
  }

  lemma MainStepDecreases<V, E>(c: Call<V, E>, s: State<V, E>, step: Step)
    requires Phased(c, s) && Enabled(c, s, step)
    requires !step.Receive? && !step.Execute? && !step.Send? && !step.Exit?
    ensures Measure(c, Apply(c, s, step)) < Measure(c, s)
  {
    SumAppend(s.workers, Idle, Owes);
  }

  lemma StepDecreases<V, E>(c: Call<V, E>, s: State<V, E>, step: Step)
    requires Inv(c, s) && Enabled(c, s, step)
    ensures 0 <= Measure(c, Apply(c, s, step)) < Measure(c, s)
  {
    StepKeepsInv(c, s, step);
    MeasureIsNatural(c, Apply(c, s, step));
    if step.Receive? || step.Execute? || step.Send? || step.Exit? {
      WorkerStepDecreases(c, s, step);
    } else {
      MainStepDecreases(c, s, step);
    }
  }

  lemma MeasureIsNatural<V, E>(c: Call<V, E>, s: State<V, E>)
    requires Phased(c, s)
    ensures 0 <= Measure(c, s)
  {
  }

  /** No schedule is longer than this, so every run that is carried on returns. */
  lemma {:induction false} RunsAreBounded<V, E>(c: Call<V, E>, schedule: seq<Step>)
    requires Run(c, schedule).Some?
    ensures |schedule| + Measure(c, Run(c, schedule).value) <= 2 * c.Workers() + 5 * c.n + 4
    ensures |schedule| <= 2 * c.Workers() + 5 * c.n + 4
  {
    if schedule != [] {
      var last := |schedule| - 1;
      RunsAreBounded(c, schedule[..last]);
      RunKeepsInv(c, schedule[..last]);
      StepDecreases(c, Run(c, schedule[..last]).value, schedule[last]);
    }
  }
}
