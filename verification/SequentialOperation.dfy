/** The fail-fast runner of api/serviceinstance: targets in order, stopping at the first failure. */
module SequentialOperation {
  import opened OperationRecord
  import opened Wrappers

  /** The first failing target, or the number of targets. */
  function FirstFailure(outcomes: seq<Outcome>): (f: nat)
    ensures f <= |outcomes|
    ensures f < |outcomes| ==> outcomes[f].Some?
    ensures forall i :: 0 <= i < f ==> outcomes[i].None?
  {
    if outcomes == [] || outcomes[0].Some? then 0 else 1 + FirstFailure(outcomes[1..])
  }

  /** What a target's result is once the run is over. */
  function Settled(r: TargetResult, outcomes: seq<Outcome>, i: nat): TargetResult
    requires i < |outcomes|
  {
    var f := FirstFailure(outcomes);
    if i <= f then Report(r, outcomes[i]) else r.(status := Skipped)
  }

  function Results(environments: seq<nat>, outcomes: seq<Outcome>): seq<TargetResult>
    requires |environments| == |outcomes|
  {
    seq(|environments|, i requires 0 <= i < |environments| => Settled(TargetResult(environments[i], Pending, ""), outcomes, i))
  }

  /** The snapshot stored while target k is being worked on, before and after it has answered: the
      targets in front of it have succeeded and the later ones are untouched. */
  function Working(environments: seq<nat>, outcomes: seq<Outcome>, k: nat, answered: bool): Record
    requires k < |environments| == |outcomes|
  {
    Record(seq(|environments|, i requires 0 <= i < |environments| =>
             var untouched := TargetResult(environments[i], Pending, "");
             if i < k then untouched.(status := Success)
             else if i > k then untouched
             else if answered then Report(untouched, outcomes[k])
             else untouched.(status := Running)),
           InProgress, false)
  }

  /** The number of targets the operation is run on: up to the first that fails, or all. */
  function Tried(outcomes: seq<Outcome>): (n: nat)
    ensures n <= |outcomes|
    ensures forall i :: 0 <= i < n - 1 ==> outcomes[i].None?
    ensures n < |outcomes| ==> n > 0 && outcomes[n - 1].Some?
  {
    var f := FirstFailure(outcomes);
    if f < |outcomes| then f + 1 else f
  }

  /** Everything stored until n targets have been tried: two snapshots a target. */
  function Stored(environments: seq<nat>, outcomes: seq<Outcome>, n: nat): seq<Record>
    requires n <= |environments| == |outcomes|
  {
    if n == 0 then []
    else Stored(environments, outcomes, n - 1)
         + [Working(environments, outcomes, n - 1, false), Working(environments, outcomes, n - 1, true)]
  }

  class Runner {
    const environments: seq<nat>
    var results: seq<TargetResult>
    /** Every snapshot handed to the data store, in order. */
    var writes: seq<Record>
    /** The targets the operation was run on, in order. */
    var executed: seq<nat>

    constructor (environments: seq<nat>)
      ensures this.environments == environments && results == Fresh(environments) && writes == [] && executed == []
    {
      this.environments := environments;
      results := Fresh(environments);
      writes := [];
      executed := [];
    }

    /** One target's turn, while nothing has failed. */
    method Try(outcomes: seq<Outcome>, i: nat) returns (failed: bool)
      requires |outcomes| == |environments| && i < |environments| && |results| == |environments|
      requires forall j :: 0 <= j < i ==> results[j] == TargetResult(environments[j], Success, "")
      requires forall j :: i <= j < |environments| ==> results[j] == TargetResult(environments[j], Pending, "")
      modifies this
      ensures failed == outcomes[i].Some?
      ensures results == old(results)[i := Report(old(results)[i], outcomes[i])]
      ensures executed == old(executed) + [i]
      ensures writes == old(writes) + [Working(environments, outcomes, i, false), Working(environments, outcomes, i, true)]
    {
      results := results[i := results[i].(status := Running)];
      assert results == Working(environments, outcomes, i, false).results;
      writes := writes + [Record(results, InProgress, false)];

      executed := executed + [i];
      failed := outcomes[i].Some?;
      if outcomes[i].Some? {
        results := results[i := results[i].(status := Failed, error := outcomes[i].value)];
      } else {
        results := results[i := results[i].(status := Success)];
      }
      assert results == Working(environments, outcomes, i, true).results;
      writes := writes + [Record(results, InProgress, false)];
    }

    /** Runs the operation, given what each target would answer. */
    method Run(outcomes: seq<Outcome>) returns (final: Record)
      requires |outcomes| == |environments|
      requires results == Fresh(environments) && writes == [] && executed == []
      modifies this
      ensures results == Results(environments, outcomes)
      ensures final == Record(results, FinalStatus(results), true)
      ensures writes == Stored(environments, outcomes, Tried(outcomes)) + [final]
      ensures executed == seq(Tried(outcomes), i requires 0 <= i => i)
    {
      var failed := false;
      ghost var f, n := FirstFailure(outcomes), 0;
      for i := 0 to |environments|
        invariant failed <==> f < i
        invariant n == if f < i then f + 1 else i
        invariant |results| == |environments|
        invariant forall j :: 0 <= j < i ==> results[j] == Settled(TargetResult(environments[j], Pending, ""), outcomes, j)
        invariant forall j :: i <= j < |environments| ==> results[j] == TargetResult(environments[j], Pending, "")
        invariant executed == seq(n, j requires 0 <= j => j)
        invariant writes == Stored(environments, outcomes, n)
      {
        if failed {
          results := results[i := results[i].(status := Skipped)];
        } else {
          failed := Try(outcomes, i);
          n := n + 1;
        }
      }
      final := Finalize(results);
      writes := writes + [final];
    }
  }

  // ----- main results

  /** Each snapshot stored on the way is successes, then the target at work, then untouched ones:
      running in the even ones, and reported in the odd ones that follow them. */
  lemma {:induction false} SnapshotShape(environments: seq<nat>, outcomes: seq<Outcome>, n: nat, w: nat)
    requires n <= Tried(outcomes) && |environments| == |outcomes| && w < |Stored(environments, outcomes, n)|
    ensures |Stored(environments, outcomes, n)| == 2 * n
    ensures var snapshot, k := Stored(environments, outcomes, n)[w], w / 2;
            && snapshot.status == InProgress && |snapshot.results| == |environments|
            && (forall i :: 0 <= i < k ==> snapshot.results[i].status == Success)
            && (forall i :: k < i < |environments| ==> snapshot.results[i].status == Pending)
            && (forall i :: 0 <= i < |environments| ==> snapshot.results[i].environment == environments[i])
            && (forall i :: 0 <= i < |environments| && i != k ==> snapshot.results[i].error == "")
            && (w % 2 == 0 ==> snapshot.results[k].error == "")
            && (w % 2 == 1 ==> snapshot.results[k].error == if k < FirstFailure(outcomes) then "" else outcomes[k].value)
            && (w % 2 == 0 ==> snapshot.results[k].status == Running)
            && (w % 2 == 1 ==> snapshot.results[k].status == if k < FirstFailure(outcomes) then Success else Failed)
  {
    StoredSize(environments, outcomes, n);
    StoredSize(environments, outcomes, n - 1);
    if w < 2 * (n - 1) {
      SnapshotShape(environments, outcomes, n - 1, w);
    } else {
      assert w / 2 == n - 1;
    }
  }

  lemma {:induction false} StoredSize(environments: seq<nat>, outcomes: seq<Outcome>, n: nat)
    requires n <= |environments| == |outcomes|
    ensures |Stored(environments, outcomes, n)| == 2 * n
  {
    if n > 0 {
      StoredSize(environments, outcomes, n - 1);
    }
  }

  /** The final results are successes up to the first failure, that failure, then skips. */
  lemma ResultsShape(environments: seq<nat>, outcomes: seq<Outcome>, i: nat)
    requires |environments| == |outcomes| && i < |outcomes|
    ensures Results(environments, outcomes)[i].status
            == if i < FirstFailure(outcomes) then Success
               else if i == FirstFailure(outcomes) then Failed
               else Skipped
    ensures Results(environments, outcomes)[i].environment == environments[i]
    ensures Results(environments, outcomes)[i].error == if i == FirstFailure(outcomes) then outcomes[i].value else ""
  {
  }

  /** A fail-fast run succeeds iff nothing fails, reports failure iff its first target fails, and
      partial success iff a later one is the first to fail. */
  lemma StatusFromFirstFailure(environments: seq<nat>, outcomes: seq<Outcome>)
    requires |environments| == |outcomes|
    ensures FinalStatus(Results(environments, outcomes))
            == if FirstFailure(outcomes) == |outcomes| then Succeeded
               else if FirstFailure(outcomes) == 0 then AllFailed
               else PartialSuccess
  {
    var rs, f := Results(environments, outcomes), FirstFailure(outcomes);
    forall i: nat | i < |outcomes| ensures rs[i].status == if i < f then Success else if i == f then Failed else Skipped {
      ResultsShape(environments, outcomes, i);
    }
    if f < |outcomes| {
      assert rs[f].status == Failed;
      if f > 0 {
        assert rs[0].status == Success;
      }
    }
  }

  /** Failure is reported exactly when all targets failed, as the status is documented, unless the
      first of several fails: the others are then skipped. */
  lemma FailureOfAllTargets(environments: seq<nat>, outcomes: seq<Outcome>)
    requires |environments| == |outcomes|
    ensures var rs := Results(environments, outcomes);
            (FinalStatus(rs) == AllFailed <==> rs != [] && forall i :: 0 <= i < |rs| ==> rs[i].status == Failed)
            <==> |outcomes| <= 1 || outcomes[0].None?
  {
    StatusFromFirstFailure(environments, outcomes);
    if outcomes != [] {
      ResultsShape(environments, outcomes, 0);
    }
    if |outcomes| > 1 {
      ResultsShape(environments, outcomes, 1);
    }
  }

  /** Two targets, of which the first fails. */
  lemma SecondTargetIsSkipped()
    ensures var rs := Results([1, 2], [Some("refused"), None]);
            FinalStatus(rs) == AllFailed && rs[0].status == Failed && rs[1].status == Skipped
  {
    StatusFromFirstFailure([1, 2], [Some("refused"), None]);
    ResultsShape([1, 2], [Some("refused"), None], 0);
    ResultsShape([1, 2], [Some("refused"), None], 1);
  }
}
