/** The operation record of api/serviceinstance and how its final status is computed. */
module OperationRecord {
  import opened Wrappers

  datatype TargetStatus = Pending | Running | Success | Failed | Skipped

  datatype TargetResult = TargetResult(environment: nat, status: TargetStatus, error: string)

  datatype OperationStatus = InProgress | Succeeded | PartialSuccess | AllFailed

  datatype Record = Record(results: seq<TargetResult>, status: OperationStatus, finished: bool)

  /** What running the operation on one target comes to: nothing, or an error. */
  type Outcome = Option<string>

  /** The results of a fresh operation. */
  function Fresh(environments: seq<nat>): seq<TargetResult> {
    seq(|environments|, i requires 0 <= i < |environments| => TargetResult(environments[i], Pending, ""))
  }

  function Report(r: TargetResult, outcome: Outcome): TargetResult {
    match outcome
    case None => r.(status := Success)
    case Some(e) => r.(status := Failed, error := e)
  }

  predicate Any(results: seq<TargetResult>, status: TargetStatus) {
    exists i :: 0 <= i < |results| && results[i].status == status
  }

  /** The final status, by what the results contain. */
  function FinalStatus(results: seq<TargetResult>): OperationStatus {
    if !Any(results, Failed) then Succeeded
    else if Any(results, Success) then PartialSuccess
    else AllFailed
  }

  /** The counting loop of finalizeOperation. */
  method Finalize(results: seq<TargetResult>) returns (record: Record)
    ensures record == Record(results, FinalStatus(results), true)
  {
    var successCount, failureCount := 0, 0;
    for i := 0 to |results|
      invariant successCount >= 0 && failureCount >= 0
      invariant successCount > 0 <==> Any(results[..i], Success)
      invariant failureCount > 0 <==> Any(results[..i], Failed)
    {
      AnyGrows(results, i, Success);
      AnyGrows(results, i, Failed);
      match results[i].status
      case Success => successCount := successCount + 1;
      case Failed => failureCount := failureCount + 1;
      case _ =>
    }
    assert results[..|results|] == results;
    var status :=
      if failureCount == 0 then Succeeded
      else if successCount > 0 then PartialSuccess
      else AllFailed;
    record := Record(results, status, true);
  }

  lemma AnyGrows(results: seq<TargetResult>, i: nat, status: TargetStatus)
    requires i < |results|
    ensures Any(results[..i + 1], status) <==> Any(results[..i], status) || results[i].status == status
  {
    var longer := results[..i + 1];
    assert forall j :: 0 <= j < i ==> longer[j] == results[..i][j];
    assert longer[i] == results[i];
    if Any(longer, status) {
      var j :| 0 <= j < |longer| && longer[j].status == status;
      assert j < i ==> results[..i][j].status == status;
    }
  }

  // ----- the status of a stack's targets taken together

  datatype StackStatus = Deploying | Active | Inactive | Error

  datatype InstanceStatus = Unknown | InstanceDeploying | InstanceRunning | InstanceStopped | InstancePartial | InstanceFailed

  predicate All(statuses: seq<StackStatus>, status: StackStatus) {
    forall i :: 0 <= i < |statuses| ==> statuses[i] == status
  }

  /** A status that every target shares is the instance's, any deploying target dominates, and
      every other mixture is partial. */
  function Aggregated(statuses: seq<StackStatus>): (r: InstanceStatus)
    ensures r.Unknown? <==> statuses == []
    ensures r.InstanceDeploying? <==> Deploying in statuses
    ensures r.InstanceRunning? <==> statuses != [] && All(statuses, Active)
    ensures r.InstanceStopped? <==> statuses != [] && All(statuses, Inactive)
    ensures r.InstanceFailed? <==> statuses != [] && All(statuses, Error)
  {
    if statuses == [] then Unknown
    else
      assert statuses[0] in statuses;
      if Deploying in statuses then InstanceDeploying
      else match statuses[0]
           case Active => if All(statuses, Active) then InstanceRunning else InstancePartial
           case Inactive => if All(statuses, Inactive) then InstanceStopped else InstancePartial
           case _ => if All(statuses, Error) then InstanceFailed else InstancePartial
  }

  /** The counting loop of AggregateStatus. */
  method AggregateStatus(statuses: seq<StackStatus>) returns (r: InstanceStatus)
    ensures r == Aggregated(statuses)
  {
    if |statuses| == 0 {
      return Unknown;
    }
    var deploying := false;
    var running, stopped, failed := 0, 0, 0;
    for i := 0 to |statuses|
      invariant deploying <==> Deploying in statuses[..i]
      invariant 0 <= running <= i && 0 <= stopped <= i && 0 <= failed <= i
      invariant running == i <==> All(statuses[..i], Active)
      invariant stopped == i <==> All(statuses[..i], Inactive)
      invariant failed == i <==> All(statuses[..i], Error)
    {
      assert statuses[..i + 1] == statuses[..i] + [statuses[i]];
      AllGrows(statuses, i, Active);
      AllGrows(statuses, i, Inactive);
      AllGrows(statuses, i, Error);
      match statuses[i]
      case Deploying => deploying := true;
      case Active => running := running + 1;
      case Inactive => stopped := stopped + 1;
      case Error => failed := failed + 1;
    }
    assert statuses[..|statuses|] == statuses;
    if deploying {
      return InstanceDeploying;
    }
    var total := |statuses|;
    r := if running == total then InstanceRunning
    else if stopped == total then InstanceStopped
    else if failed == total then InstanceFailed
    else InstancePartial;
    assert statuses[0] in statuses;
  }

  lemma AllGrows(statuses: seq<StackStatus>, i: nat, status: StackStatus)
    requires i < |statuses|
    ensures All(statuses[..i + 1], status) <==> All(statuses[..i], status) && statuses[i] == status
  {
    var longer := statuses[..i + 1];
    assert forall j :: 0 <= j < i ==> longer[j] == statuses[..i][j];
    assert longer[i] == statuses[i];
  }

  /** How the status is documented: a target failed and none is running. */
  predicate DocumentedFailed(statuses: seq<StackStatus>) {
    Error in statuses && Active !in statuses
  }

  /** The status computed is the documented one iff no failed target is beside an inactive or a
      deploying one while none is running. */
  lemma FailedAsDocumented(statuses: seq<StackStatus>)
    ensures Aggregated(statuses).InstanceFailed? ==> DocumentedFailed(statuses)
    ensures (Aggregated(statuses).InstanceFailed? <==> DocumentedFailed(statuses))
            <==> !(Error in statuses && Active !in statuses && (Inactive in statuses || Deploying in statuses))
  {
    if Aggregated(statuses).InstanceFailed? {
      assert statuses[0] == Error;
    }
    if DocumentedFailed(statuses) && !All(statuses, Error) {
      var i :| 0 <= i < |statuses| && statuses[i] != Error;
      assert statuses[i] in statuses;
    }
  }

  /** Where it is not: a failed target beside a stopped one. */
  lemma FailedBesideStopped()
    ensures DocumentedFailed([Error, Inactive]) && Aggregated([Error, Inactive]) == InstancePartial
  {
    assert [Error, Inactive][1] == Inactive;
  }
}
