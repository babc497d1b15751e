/** The parallel runner of api/serviceinstance: one goroutine a target, sharing the operation
    record under a mutex, as a step system driven by an arbitrary schedule. */
module ParallelOperation {
  import opened Wrappers
  import opened Tally
  import opened OperationRecord
  import Sequential = SequentialOperation

  /** The operation's targets and what running it on each of them comes to. */
  datatype Call = Call(environments: seq<nat>, outcomes: seq<Outcome>) {
    ghost predicate Valid() { |environments| == |outcomes| }
  }

  /** A worker's program points; the `In...` points are inside its critical sections. */
  datatype Pc = Marking | InMark | Executing | Reporting | InReport | Finished

  datatype Main = Launching | Finalizing | Returned

  /** `workers[i]` is the goroutine of target i, once launched; `writes` are the snapshots handed to
      the data store, in order. */
  datatype State = State(main: Main, mu: Option<nat>, workers: seq<Pc>, results: seq<TargetResult>, writes: seq<Record>)

  datatype Step = Launch | Lock(i: nat) | Leave(i: nat) | Execute(i: nat) | Wait | Finalize

  function Init(c: Call): State {
    State(Launching, None, [], Fresh(c.environments), [])
  }

  /** Whether the step can be taken now; the bounds in `Leave` hold in every reachable state. */
  predicate Enabled(c: Call, s: State, step: Step) {
    match step
    case Launch => s.main.Launching? && |s.workers| < |c.environments|
    case Lock(i) => s.mu.None? && i < |s.workers| && (s.workers[i].Marking? || s.workers[i].Reporting?)
    case Leave(i) => i < |s.workers| && (s.workers[i].InMark? || s.workers[i].InReport?) && i < |s.results| && i < |c.outcomes|
    case Execute(i) => i < |s.workers| && s.workers[i].Executing?
    case Wait => s.main.Launching? && |s.workers| >= |c.environments| && forall i :: 0 <= i < |s.workers| ==> s.workers[i].Finished?
    case Finalize => s.main.Finalizing?
  }

  function Apply(c: Call, s: State, step: Step): State
    requires Enabled(c, s, step)
  {
    match step
    case Launch => s.(workers := s.workers + [Marking])
    case Lock(i) => s.(mu := Some(i), workers := s.workers[i := if s.workers[i].Marking? then InMark else InReport])
    case Leave(i) =>
      var r := if s.workers[i].InMark? then s.results[i].(status := Running) else Report(s.results[i], c.outcomes[i]);
      var rs := s.results[i := r];
      s.(mu := None, results := rs, writes := s.writes + [Record(rs, InProgress, false)],
         workers := s.workers[i := if s.workers[i].InMark? then Executing else Finished])
    case Execute(i) => s.(workers := s.workers[i := Reporting])
    case Wait => s.(main := Finalizing)
    case Finalize => s.(main := Returned, writes := s.writes + [Record(s.results, FinalStatus(s.results), true)])
  }

  ghost function Run(c: Call, schedule: seq<Step>): Option<State> {
    if schedule == [] then Some(Init(c))
    else
      var last := |schedule| - 1;
      match Run(c, schedule[..last])
      case None => None
      case Some(s) => if Enabled(c, s, schedule[last]) then Some(Apply(c, s, schedule[last])) else None
  }

  // ----- the invariant

  /** What target i's result can be, by how far it has come: 0, 1 or 2 for untouched, marked
      running, reported. */
  function Stage(c: Call, i: nat, stage: nat): TargetResult
    requires i < |c.environments| && i < |c.outcomes|
  {
    var untouched := TargetResult(c.environments[i], Pending, "");
    if stage == 0 then untouched
    else if stage == 1 then untouched.(status := Running)
    else Report(untouched, c.outcomes[i])
  }

  function Rank(status: TargetStatus): nat {
    match status
    case Pending => 0
    case Running => 1
    case _ => 2
  }

  function Progress(s: State, i: nat): nat {
    if i >= |s.workers| then 0
    else match s.workers[i]
         case Marking => 0
         case InMark => 0
         case Finished => 2
         case _ => 1
  }

  /** A stored snapshot: each target at some stage of its own, no further than in `limit`. */
  ghost predicate Bounded(c: Call, snapshot: Record, limit: seq<TargetResult>)
    requires c.Valid()
  {
    && |snapshot.results| == |limit| == |c.environments|
    && forall i :: 0 <= i < |c.environments| ==>
         snapshot.results[i] == Stage(c, i, Rank(snapshot.results[i].status))
         && Rank(snapshot.results[i].status) <= Rank(limit[i].status)
  }

  ghost predicate Chained(c: Call, writes: seq<Record>)
    requires c.Valid()
  {
    forall j, k :: 0 <= j <= k < |writes| ==> Bounded(c, writes[j], writes[k].results)
  }

  ghost predicate Inv(c: Call, s: State) {
    && c.Valid()
    && |s.workers| <= |c.environments| == |s.results|
    && (forall i :: 0 <= i < |s.workers| ==> (s.workers[i].InMark? || s.workers[i].InReport? <==> s.mu == Some(i)))
    && (s.mu.Some? ==> s.mu.value < |s.workers|)
    && (forall i :: 0 <= i < |c.environments| ==> s.results[i] == Stage(c, i, Progress(s, i)))
    && (!s.main.Launching? ==> |s.workers| == |c.environments| && forall i :: 0 <= i < |s.workers| ==> s.workers[i].Finished?)
    && Chained(c, s.writes)
    && (forall k :: 0 <= k < |s.writes| ==> Bounded(c, s.writes[k], s.results))
    && (s.main.Returned? ==> s.writes != [] && s.writes[|s.writes| - 1] == Final(c))
    && (!s.main.Returned? ==> forall k :: 0 <= k < |s.writes| ==> s.writes[k].status == InProgress && !s.writes[k].finished)
  }

  /** The record the operation ends with, which mentions no schedule. */
  function Results(c: Call): seq<TargetResult> {
    seq(|c.environments|, i requires 0 <= i < |c.environments| =>
      if i < |c.outcomes| then Report(TargetResult(c.environments[i], Pending, ""), c.outcomes[i])
      else TargetResult(c.environments[i], Pending, ""))
  }

  function Final(c: Call): Record {
    Record(Results(c), FinalStatus(Results(c)), true)
  }

  lemma StageRank(c: Call, i: nat, stage: nat)
    requires i < |c.environments| && i < |c.outcomes| && stage <= 2
    ensures Rank(Stage(c, i, stage).status) == stage
  {
  }

  lemma AppendKeepsChain(c: Call, writes: seq<Record>, snapshot: Record)
    requires c.Valid() && Chained(c, writes)
    requires forall k :: 0 <= k < |writes| ==> Bounded(c, writes[k], snapshot.results)
    requires Bounded(c, snapshot, snapshot.results)
    ensures Chained(c, writes + [snapshot])
  {
  }

  lemma RaisedLimit(c: Call, snapshot: Record, limit: seq<TargetResult>, limit': seq<TargetResult>)
    requires c.Valid() && Bounded(c, snapshot, limit) && |limit'| == |limit|
    requires forall i :: 0 <= i < |limit| ==> Rank(limit[i].status) <= Rank(limit'[i].status)
    ensures Bounded(c, snapshot, limit')
  {
  }

  lemma LeaveKeepsInv(c: Call, s: State, i: nat)
    requires Inv(c, s) && Enabled(c, s, Leave(i))
    ensures Inv(c, Apply(c, s, Leave(i)))
  {
    var s' := Apply(c, s, Leave(i));
    var now := Record(s'.results, InProgress, false);
    forall j: nat | j < |c.environments|
      ensures s'.results[j] == Stage(c, j, Progress(s', j))
      ensures Rank(s.results[j].status) <= Rank(s'.results[j].status)
    {
      StageRank(c, j, Progress(s, j));
      StageRank(c, j, Progress(s', j));
    }
    forall k | 0 <= k < |s.writes| ensures Bounded(c, s.writes[k], s'.results) {
      RaisedLimit(c, s.writes[k], s.results, s'.results);
    }
    ResultsBounded(c, s'.results, s', now);
    AppendKeepsChain(c, s.writes, now);
  }

  lemma ResultsBounded(c: Call, results: seq<TargetResult>, s: State, snapshot: Record)
    requires c.Valid() && |results| == |c.environments| && snapshot.results == results
    requires forall i :: 0 <= i < |c.environments| ==> results[i] == Stage(c, i, Progress(s, i))
    ensures Bounded(c, snapshot, results)
  {
    forall i: nat | i < |c.environments|
      ensures results[i] == Stage(c, i, Rank(results[i].status))
    {
      StageRank(c, i, Progress(s, i));
    }
  }

  lemma FinalizeKeepsInv(c: Call, s: State)
    requires Inv(c, s) && Enabled(c, s, Finalize)
    ensures Inv(c, Apply(c, s, Finalize))
  {
    var s' := Apply(c, s, Finalize);
    assert s.results == Results(c);
    ResultsBounded(c, s.results, s, Final(c));
    AppendKeepsChain(c, s.writes, Final(c));
  }

  lemma StepKeepsInv(c: Call, s: State, step: Step)
    requires Inv(c, s) && Enabled(c, s, step)
    ensures Inv(c, Apply(c, s, step))
  {
    match step
    case Leave(i) => LeaveKeepsInv(c, s, i);
    case Finalize => FinalizeKeepsInv(c, s);
    case _ =>
      var s' := Apply(c, s, step);
      assert forall i: nat :: Progress(s', i) == Progress(s, i);
  }

  lemma {:induction false} RunKeepsInv(c: Call, schedule: seq<Step>)
    requires c.Valid() && Run(c, schedule).Some?
    ensures Inv(c, Run(c, schedule).value)
  {
    if schedule != [] {
      var last := |schedule| - 1;
      RunKeepsInv(c, schedule[..last]);
      StepKeepsInv(c, Run(c, schedule[..last]).value, schedule[last]);
    }
  }

  // ----- main results

  /** The last snapshot stored is the same for every schedule. */
  lemma ResultIndependentOfSchedule(c: Call, schedule: seq<Step>)
    requires c.Valid() && Run(c, schedule).Some? && Run(c, schedule).value.main.Returned?
    ensures Run(c, schedule).value.writes != []
    ensures Run(c, schedule).value.writes[|Run(c, schedule).value.writes| - 1] == Final(c)
    ensures Run(c, schedule).value.results == Results(c)
  {
    RunKeepsInv(c, schedule);
    assert Run(c, schedule).value.results == Results(c);
  }

  /** Over the stored snapshots of any run, each target moves only from pending to running to the
      result its own outcome dictates, and then stays there. */
  lemma TargetsOnlyAdvance(c: Call, schedule: seq<Step>, j: nat, k: nat, i: nat)
    requires c.Valid() && Run(c, schedule).Some?
    requires j <= k < |Run(c, schedule).value.writes| && i < |c.environments|
    ensures var writes := Run(c, schedule).value.writes;
            && |writes[j].results| == |writes[k].results| == |c.environments|
            && var (a, b) := (writes[j].results[i], writes[k].results[i]);
            && (b.status.Pending? ==> a.status.Pending?)
            && (b.status.Running? ==> a.status.Pending? || a.status.Running?)
            && (!a.status.Pending? && !a.status.Running? ==> a == b == Results(c)[i])
            && a.environment == b.environment == c.environments[i]
  {
    RunKeepsInv(c, schedule);
    var writes := Run(c, schedule).value.writes;
    assert Bounded(c, writes[j], writes[k].results);
    assert Bounded(c, writes[k], writes[k].results);
  }

  /** Success iff every target succeeded, failure iff there are targets and all failed, and partial
      success in between. */
  lemma StatusClassifiesOutcomes(c: Call)
    requires c.Valid()
    ensures Final(c).status == Succeeded <==> forall i :: 0 <= i < |c.outcomes| ==> c.outcomes[i].None?
    ensures Final(c).status == AllFailed <==> c.outcomes != [] && forall i :: 0 <= i < |c.outcomes| ==> c.outcomes[i].Some?
    ensures Final(c).status == PartialSuccess
            <==> (exists i :: 0 <= i < |c.outcomes| && c.outcomes[i].None?) && (exists i :: 0 <= i < |c.outcomes| && c.outcomes[i].Some?)
  {
    var rs := Results(c);
    forall i | 0 <= i < |rs|
      ensures rs[i].status == Success <==> c.outcomes[i].None?
      ensures rs[i].status == Failed <==> c.outcomes[i].Some?
    {
    }
    assert Any(rs, Success) <==> exists i :: 0 <= i < |c.outcomes| && c.outcomes[i].None? by {
      if i :| 0 <= i < |c.outcomes| && c.outcomes[i].None? {
        assert rs[i].status == Success;
      }
    }
    assert Any(rs, Failed) <==> exists i :: 0 <= i < |c.outcomes| && c.outcomes[i].Some? by {
      if i :| 0 <= i < |c.outcomes| && c.outcomes[i].Some? {
        assert rs[i].status == Failed;
      }
    }
    assert c.outcomes != [] ==> c.outcomes[0].None? || c.outcomes[0].Some?;
  }

  /** The two runners agree on which outcomes are a success; a parallel run that fails also fails
      sequentially, and the converse holds iff the first failure settles it. */
  lemma RunnersAgreeOnSuccess(c: Call)
    requires c.Valid()
    ensures Final(c).status == Succeeded
            <==> FinalStatus(Sequential.Results(c.environments, c.outcomes)) == Succeeded
    ensures Final(c).status == AllFailed ==> FinalStatus(Sequential.Results(c.environments, c.outcomes)) == AllFailed
    ensures FinalStatus(Sequential.Results(c.environments, c.outcomes)) == AllFailed && Final(c).status != AllFailed
            <==> c.outcomes != [] && c.outcomes[0].Some? && exists i :: 0 <= i < |c.outcomes| && c.outcomes[i].None?
  {
    StatusClassifiesOutcomes(c);
    Sequential.StatusFromFirstFailure(c.environments, c.outcomes);
    var f := Sequential.FirstFailure(c.outcomes);
    assert f < |c.outcomes| ==> c.outcomes[f].Some?;
    assert c.outcomes != [] && c.outcomes[0].Some? ==> f == 0;
  }

  /** No reachable state is stuck before the operation has been finalized. */
  lemma NeverStuck(c: Call, schedule: seq<Step>) returns (step: Step)
    requires c.Valid() && Run(c, schedule).Some? && !Run(c, schedule).value.main.Returned?
    ensures Enabled(c, Run(c, schedule).value, step)
  {
    RunKeepsInv(c, schedule);
    var s := Run(c, schedule).value;
    if s.main.Finalizing? {
      step := Finalize;
    } else if |s.workers| < |c.environments| {
      step := Launch;
    } else if s.mu.Some? {
      step := Leave(s.mu.value);
    } else if i: nat :| i < |s.workers| && !s.workers[i].Finished? {
      step := if s.workers[i].Executing? then Execute(i) else Lock(i);
    } else {
      step := Wait;
    }
  }

  ghost function Owes(pc: Pc): nat {
    match pc
    case Marking => 5
    case InMark => 4
    case Executing => 3
    case Reporting => 2
    case InReport => 1
    case Finished => 0
  }

  ghost function Measure(c: Call, s: State): int {
    6 * (|c.environments| - |s.workers|) + Sum(s.workers, Owes)
    + match s.main
      case Launching => 2
      case Finalizing => 1
      case Returned => 0
  }

  lemma StepDecreases(c: Call, s: State, step: Step)
    requires Inv(c, s) && Enabled(c, s, step)
    ensures Measure(c, s) == Measure(c, Apply(c, s, step)) + 1
  {
    var s' := Apply(c, s, step);
    match step
    case Launch => SumAppend(s.workers, Marking, Owes);
    case Lock(i) => SumUpdate(s.workers, i, s'.workers[i], Owes);
    case Leave(i) => SumUpdate(s.workers, i, s'.workers[i], Owes);
    case Execute(i) => SumUpdate(s.workers, i, s'.workers[i], Owes);
    case _ =>
  }

  /** Every run that is carried on returns, after exactly six steps a target and two of its own. */
  lemma {:induction false} RunLength(c: Call, schedule: seq<Step>)
    requires c.Valid() && Run(c, schedule).Some?
    ensures |schedule| + Measure(c, Run(c, schedule).value) == 6 * |c.environments| + 2
    ensures Run(c, schedule).value.main.Returned? <==> |schedule| == 6 * |c.environments| + 2
  {
    RunKeepsInv(c, schedule);
    if schedule != [] {
      var last := |schedule| - 1;
      RunLength(c, schedule[..last]);
      RunKeepsInv(c, schedule[..last]);
      StepDecreases(c, Run(c, schedule[..last]).value, schedule[last]);
    }
    ReturnedOwesNothing(c, Run(c, schedule).value);
  }

  lemma ReturnedOwesNothing(c: Call, s: State)
    requires Inv(c, s)
    ensures Measure(c, s) >= 0
    ensures s.main.Returned? <==> Measure(c, s) == 0
  {
    if s.main.Returned? {
      AllZero(s.workers, Owes);
    }
  }

  /** What has been stored for a target: one snapshot once it is marked, another once it is reported. */
  ghost function Snapshots(pc: Pc): nat {
    match pc
    case Marking => 0
    case InMark => 0
    case Finished => 2
    case _ => 1
  }

  lemma StepStores(c: Call, s: State, step: Step)
    requires Inv(c, s) && Enabled(c, s, step)
    ensures var s' := Apply(c, s, step);
            |s'.writes| - |s.writes| == Sum(s'.workers, Snapshots) - Sum(s.workers, Snapshots) + if step.Finalize? then 1 else 0
  {
    var s' := Apply(c, s, step);
    match step
    case Launch => SumAppend(s.workers, Marking, Snapshots);
    case Lock(i) => SumUpdate(s.workers, i, s'.workers[i], Snapshots);
    case Leave(i) => SumUpdate(s.workers, i, s'.workers[i], Snapshots);
    case Execute(i) => SumUpdate(s.workers, i, s'.workers[i], Snapshots);
    case _ =>
  }

  /** What was stored last is the record as it is. */
  ghost predicate Current(c: Call, s: State) {
    s.results == if s.writes == [] then Fresh(c.environments) else s.writes[|s.writes| - 1].results
  }

  lemma StepKeepsCurrent(c: Call, s: State, step: Step)
    requires Current(c, s) && Enabled(c, s, step)
    ensures Current(c, Apply(c, s, step))
  {
  }

  /** Every change of the record is stored as it is made: the last snapshot is never behind, and there are
      two for each target that has reported, one for each that is at work, and the final one. */
  lemma {:induction false} RecordIsStored(c: Call, schedule: seq<Step>)
    requires c.Valid() && Run(c, schedule).Some?
    ensures var s := Run(c, schedule).value;
            |s.writes| == Sum(s.workers, Snapshots) + (if s.main.Returned? then 1 else 0) && Current(c, s)
  {
    if schedule != [] {
      var last := |schedule| - 1;
      RecordIsStored(c, schedule[..last]);
      RunKeepsInv(c, schedule[..last]);
      StepStores(c, Run(c, schedule[..last]).value, schedule[last]);
      StepKeepsCurrent(c, Run(c, schedule[..last]).value, schedule[last]);
    }
  }

  lemma RunOneMore(c: Call, schedule: seq<Step>, step: Step)
    requires Run(c, schedule).Some? && Enabled(c, Run(c, schedule).value, step)
    ensures Run(c, schedule + [step]) == Some(Apply(c, Run(c, schedule).value, step))
  {
    assert (schedule + [step])[..|schedule|] == schedule;
  }

  lemma {:induction false} CanLaunch(c: Call, k: nat) returns (schedule: seq<Step>)
    requires c.Valid() && k <= |c.environments|
    ensures Run(c, schedule).Some?
    ensures var s := Run(c, schedule).value;
            && s.main.Launching? && s.mu.None? && |s.results| == |c.environments|
            && |s.workers| == k && forall i :: 0 <= i < k ==> s.workers[i].Marking?
  {
    if k == 0 {
      schedule := [];
    } else {
      schedule := CanLaunch(c, k - 1);
      RunOneMore(c, schedule, Launch);
      schedule := schedule + [Launch];
    }
  }

  /** All targets can be operated on at once: no goroutine waits for another but at the record. */
  lemma {:induction false} AllAtOnce(c: Call, k: nat) returns (schedule: seq<Step>)
    requires c.Valid() && k <= |c.environments|
    ensures Run(c, schedule).Some?
    ensures var s := Run(c, schedule).value;
            && s.main.Launching? && s.mu.None? && |s.results| == |s.workers| == |c.environments|
            && forall i :: 0 <= i < |s.workers| ==> s.workers[i] == if i < k then Executing else Marking
  {
    if k == 0 {
      schedule := CanLaunch(c, |c.environments|);
    } else {
      schedule := AllAtOnce(c, k - 1);
      RunOneMore(c, schedule, Lock(k - 1));
      schedule := schedule + [Lock(k - 1)];
      RunOneMore(c, schedule, Leave(k - 1));
      schedule := schedule + [Leave(k - 1)];
    }
  }
}
