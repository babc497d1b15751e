/** The scheduled-build runner of api/serviceinstance: pull the images on every target, wait for the
    deploy time, then start the deploy operation. */
module ScheduledBuild {
  import opened Wrappers
  import Sequential = SequentialOperation

  datatype TargetStatus = Pending | Pulling | ImageReady | Deployed | Failed | Skipped

  datatype TargetResult = TargetResult(environment: nat, status: TargetStatus, error: string)

  datatype BuildStatus = BuildPending | BuildPulling | BuildImageReady | BuildDeployed | BuildFailed | BuildCancelled

  datatype Build = Build(results: seq<TargetResult>, status: BuildStatus, error: string, finished: bool)

  datatype Wake = Cancelled | Fired(at: int)

  /** What the outside world answers during one run: the images named by the compose file, whether
      the context is cancelled when the loop comes to target i, each pull, the clock and the timer,
      the update of the instance and the start of the operation. `None` is the absence of an error. */
  datatype Environment = Environment(
    parse: Option<string>,
    cancelled: nat -> bool,
    pulls: seq<Option<string>>,
    now: int,
    wake: Wake,
    update: Option<string>,
    execute: Option<string>)
  {
    /** A timer does not fire early. */
    ghost predicate TimerIsSound(deployAt: int) {
      wake.Fired? ==> wake.at >= deployAt
    }
  }

  /** What a run does, in order: snapshots handed to the data store, and calls to the outside world. */
  datatype Event = Stored(build: Build) | Pulled(target: nat) | InstanceUpdated | DeployRequested(at: int)

  /** The first target at which the loop sees the context cancelled, or the number of targets. */
  function FirstCancelled(env: Environment, from: nat, n: nat): (c: nat)
    requires from <= n
    ensures from <= c <= n
    ensures c < n ==> env.cancelled(c)
    ensures forall i: nat :: from <= i < c ==> !env.cancelled(i)
    decreases n - from
  {
    if from == n || env.cancelled(from) then from else FirstCancelled(env, from + 1, n)
  }

  function Outcome(r: TargetResult, pull: Option<string>): TargetResult {
    match pull
    case None => r.(status := ImageReady)
    case Some(e) => r.(status := TargetStatus.Failed, error := e)
  }

  /** The results once the first k targets have been dealt with. */
  function Reached(initial: seq<TargetResult>, env: Environment, k: nat): seq<TargetResult>
    requires |initial| == |env.pulls|
  {
    seq(|initial|, i requires 0 <= i < |initial| =>
      if i >= k then initial[i]
      else if i <= Sequential.FirstFailure(env.pulls) then Outcome(initial[i], env.pulls[i])
      else initial[i].(status := Skipped))
  }

  /** What the loop does about target k. */
  function Turn(build: Build, env: Environment, k: nat): seq<Event>
    requires k < |build.results| == |env.pulls|
  {
    var before, after := Reached(build.results, env, k), Reached(build.results, env, k + 1);
    if k <= Sequential.FirstFailure(env.pulls)
    then [Stored(build.(results := before[k := before[k].(status := Pulling)])), Pulled(k), Stored(build.(results := after))]
    else [Stored(build.(results := after))]
  }

  function Turns(build: Build, env: Environment, n: nat): seq<Event>
    requires n <= |build.results| == |env.pulls|
  {
    if n == 0 then [] else Turns(build, env, n - 1) + Turn(build, env, n - 1)
  }

  lemma OneMoreTurn(before: seq<Event>, build: Build, env: Environment, k: nat)
    requires k < |build.results| == |env.pulls|
    ensures (before + Turns(build, env, k)) + Turn(build, env, k) == before + Turns(build, env, k + 1)
  {
  }

  /** failScheduledBuild leaves no target waiting. */
  function Abandon(r: TargetResult): TargetResult {
    if r.status.Pending? || r.status.Pulling? then r.(status := Skipped) else r
  }

  function Abandoned(results: seq<TargetResult>): seq<TargetResult> {
    seq(|results|, i requires 0 <= i < |results| => Abandon(results[i]))
  }

  predicate AllReady(results: seq<TargetResult>) {
    forall i :: 0 <= i < |results| ==> results[i].status == ImageReady
  }

  function AllDeployed(results: seq<TargetResult>): seq<TargetResult> {
    seq(|results|, i requires 0 <= i < |results| => results[i].(status := Deployed))
  }

  /** When the wait for the deploy time is over, if it is not cancelled. */
  function WaitEnds(env: Environment, deployAt: int): int {
    if deployAt <= env.now || env.wake.Cancelled? then env.now else env.wake.at
  }

  /** What becomes of a build whose targets are all ready, and what is done about it. */
  ghost function Deployment(build: Build, env: Environment, deployAt: int): Build {
    var ready := build.(status := BuildImageReady);
    if env.now < deployAt && env.wake.Cancelled? then ready
    else if env.update.Some? then Build(Abandoned(ready.results), BuildFailed, env.update.value, true)
    else if env.execute.Some? then Build(Abandoned(ready.results), BuildFailed, env.execute.value, true)
    else ready.(results := AllDeployed(ready.results), status := BuildDeployed, finished := true)
  }

  ghost function DeployTrace(build: Build, env: Environment, deployAt: int): seq<Event> {
    var ready, end := Stored(build.(status := BuildImageReady)), Stored(Deployment(build, env, deployAt));
    if env.now < deployAt && env.wake.Cancelled? then [ready]
    else if env.update.Some? then [ready, InstanceUpdated, end]
    else [ready, InstanceUpdated, DeployRequested(WaitEnds(env, deployAt)), end]
  }

  /** The same of a build that the pull loop leaves. */
  ghost function End(build: Build, env: Environment, deployAt: int): Build {
    if FirstCancelled(env, 0, |env.pulls|) < |env.pulls| then build
    else if Sequential.FirstFailure(env.pulls) < |env.pulls| then Build(Abandoned(build.results), BuildFailed, "image pull failed", true)
    else Deployment(build, env, deployAt)
  }

  ghost function EndTrace(build: Build, env: Environment, deployAt: int): seq<Event> {
    if FirstCancelled(env, 0, |env.pulls|) < |env.pulls| then []
    else if Sequential.FirstFailure(env.pulls) < |env.pulls| then [Stored(End(build, env, deployAt))]
    else DeployTrace(build, env, deployAt)
  }

  /** The build as the pull loop leaves it. */
  ghost function AfterPulls(build: Build, env: Environment): Build
    requires |env.pulls| == |build.results|
  {
    Build(Reached(build.results, env, FirstCancelled(env, 0, |env.pulls|)), BuildPulling, build.error, build.finished)
  }

  ghost function RunEnd(build: Build, env: Environment, deployAt: int): Build
    requires |env.pulls| == |build.results|
  {
    match env.parse
    case Some(e) => Build(Abandoned(build.results), BuildFailed, e, true)
    case None => End(AfterPulls(build, env), env, deployAt)
  }

  /** Everything a run does. */
  ghost function RunTrace(build: Build, env: Environment, deployAt: int): seq<Event>
    requires |env.pulls| == |build.results|
  {
    var start := build.(status := BuildPulling);
    if env.parse.Some? then [Stored(start), Stored(RunEnd(build, env, deployAt))]
    else [Stored(start)] + PullTrace(start, env, deployAt)
  }

  ghost function PullTrace(start: Build, env: Environment, deployAt: int): seq<Event>
    requires |env.pulls| == |start.results|
  {
    Turns(start, env, FirstCancelled(env, 0, |env.pulls|)) + EndTrace(AfterPulls(start, env), env, deployAt)
  }

  class Runner {
    const id: nat
    var build: Build
    var trace: seq<Event>
    /** The builds whose cancel function is registered. */
    var registered: set<nat>

    constructor (id: nat, build: Build)
      ensures this.id == id && this.build == build && trace == [] && registered == {id}
    {
      this.id := id;
      this.build := build;
      trace, registered := [], {id};
    }

    method Persist()
      modifies this`trace
      ensures trace == old(trace) + [Stored(build)]
    {
      trace := trace + [Stored(build)];
    }

    /** The loop of failScheduledBuild. */
    method Fail(error: string)
      modifies this`build, this`trace
      ensures build == Build(Abandoned(old(build.results)), BuildFailed, error, true)
      ensures trace == old(trace) + [Stored(build)]
    {
      build := build.(status := BuildFailed, error := error, finished := true);
      ghost var before := build.results;
      for i := 0 to |build.results|
        invariant trace == old(trace)
        invariant build == Build(build.results, BuildFailed, error, true) && |build.results| == |before|
        invariant forall j :: 0 <= j < i ==> build.results[j] == Abandon(before[j])
        invariant forall j :: i <= j < |before| ==> build.results[j] == before[j]
      {
        var r := build.results[i];
        if r.status.Pending? || r.status.Pulling? {
          build := build.(results := build.results[i := r.(status := Skipped)]);
        }
      }
      Persist();
    }

    /** One turn of the pull loop, on a target that is not skipped. */
    method PullTarget(env: Environment, i: nat, ghost start: Build) returns (ok: bool)
      requires i < |start.results| == |env.pulls| && i <= Sequential.FirstFailure(env.pulls)
      requires build == start.(results := Reached(start.results, env, i))
      modifies this`build, this`trace
      ensures ok == env.pulls[i].None?
      ensures build == start.(results := Reached(start.results, env, i + 1))
      ensures trace == old(trace) + Turn(start, env, i)
    {
      build := build.(results := build.results[i := build.results[i].(status := Pulling)]);
      Persist();
      trace := trace + [Pulled(i)];
      ok := env.pulls[i].None?;
      if env.pulls[i].Some? {
        build := build.(results := build.results[i := build.results[i].(status := TargetStatus.Failed, error := env.pulls[i].value)]);
      } else {
        build := build.(results := build.results[i := build.results[i].(status := ImageReady)]);
      }
      assert build.results == Reached(start.results, env, i + 1);
      Persist();
    }

    /** One turn on a target behind a failed one. */
    method SkipTarget(env: Environment, i: nat, ghost start: Build)
      requires i < |start.results| == |env.pulls| && i > Sequential.FirstFailure(env.pulls)
      requires build == start.(results := Reached(start.results, env, i))
      modifies this`build, this`trace
      ensures build == start.(results := Reached(start.results, env, i + 1))
      ensures trace == old(trace) + Turn(start, env, i)
    {
      build := build.(results := build.results[i := build.results[i].(status := Skipped)]);
      assert build.results == Reached(start.results, env, i + 1);
      Persist();
    }

    /** The build and the trace after k turns of the loop. */
    ghost predicate At(start: Build, before: seq<Event>, env: Environment, k: nat)
      requires k <= |start.results| == |env.pulls|
      reads this
    {
      && build == start.(results := Reached(start.results, env, k))
      && trace == before + Turns(start, env, k)
    }

    method Visit(env: Environment, i: nat, failed: bool, ghost start: Build, ghost before: seq<Event>) returns (failed': bool)
      requires i < |start.results| == |env.pulls| && At(start, before, env, i)
      requires failed <==> Sequential.FirstFailure(env.pulls) < i
      modifies this`build, this`trace
      ensures At(start, before, env, i + 1)
      ensures failed' <==> Sequential.FirstFailure(env.pulls) < i + 1
    {
      OneMoreTurn(before, start, env, i);
      failed' := failed;
      if failed {
        SkipTarget(env, i, start);
      } else {
        var ok := PullTarget(env, i, start);
        failed' := !ok;
      }
    }

    /** The pull loop; it stops early when it sees the context cancelled. */
    method PullAll(env: Environment) returns (stopped: bool, failed: bool)
      requires |env.pulls| == |build.results|
      modifies this`build, this`trace
      ensures stopped <==> FirstCancelled(env, 0, |env.pulls|) < |env.pulls|
      ensures !stopped ==> (failed <==> Sequential.FirstFailure(env.pulls) < |env.pulls|)
      ensures At(old(build), old(trace), env, FirstCancelled(env, 0, |env.pulls|))
    {
      failed := false;
      var n := |build.results|;
      ghost var start, before, c := build, trace, FirstCancelled(env, 0, n);
      assert build.results == Reached(start.results, env, 0);
      for i := 0 to n
        invariant i <= c && (failed <==> Sequential.FirstFailure(env.pulls) < i)
        invariant At(start, before, env, i)
      {
        if env.cancelled(i) {
          return true, failed;
        }
        failed := Visit(env, i, failed, start, before);
      }
      stopped := false;
    }

    /** waitForDeployTime: the time at which the wait is over, or nothing when it was cancelled. */
    method WaitForDeployTime(env: Environment, deployAt: int) returns (at: Option<int>)
      ensures at.Some? && env.TimerIsSound(deployAt) ==> at.value >= deployAt
      ensures at.Some? ==> at.value == WaitEnds(env, deployAt)
      ensures at.None? <==> env.now < deployAt && env.wake.Cancelled?
    {
      var wait := deployAt - env.now;
      if wait <= 0 {
        return Some(env.now);
      }
      match env.wake
      case Cancelled => at := None;
      case Fired(t) => at := Some(t);
    }

    method MarkDeployed()
      modifies this`build, this`trace
      ensures build == old(build).(results := AllDeployed(old(build.results)), status := BuildDeployed, finished := true)
      ensures trace == old(trace) + [Stored(build)]
    {
      ghost var before := build.results;
      for i := 0 to |build.results|
        invariant trace == old(trace)
        invariant build == old(build).(results := build.results) && |build.results| == |before|
        invariant forall j :: 0 <= j < i ==> build.results[j] == before[j].(status := Deployed)
        invariant forall j :: i <= j < |before| ==> build.results[j] == before[j]
      {
        build := build.(results := build.results[i := build.results[i].(status := Deployed)]);
      }
      build := build.(status := BuildDeployed, finished := true);
      Persist();
    }

    /** What follows a complete pull: wait, then start the deploy operation. */
    method Deploy(env: Environment, deployAt: int)
      modifies this`build, this`trace
      ensures build == Deployment(old(build), env, deployAt)
      ensures trace == old(trace) + DeployTrace(old(build), env, deployAt)
    {
      build := build.(status := BuildImageReady);
      Persist();
      var at := WaitForDeployTime(env, deployAt);
      if at.None? {
        return;
      }
      trace := trace + [InstanceUpdated];
      if env.update.Some? {
        Fail(env.update.value);
        return;
      }
      trace := trace + [DeployRequested(at.value)];
      if env.execute.Some? {
        Fail(env.execute.value);
      } else {
        MarkDeployed();
      }
    }

    /** What follows the pull loop. */
    method Finish(env: Environment, deployAt: int, stopped: bool, failed: bool)
      requires stopped <==> FirstCancelled(env, 0, |env.pulls|) < |env.pulls|
      requires !stopped ==> (failed <==> Sequential.FirstFailure(env.pulls) < |env.pulls|)
      modifies this`build, this`trace
      ensures build == End(old(build), env, deployAt)
      ensures trace == old(trace) + EndTrace(old(build), env, deployAt)
    {
      if stopped {
        return;
      }
      if failed {
        Fail("image pull failed");
      } else {
        Deploy(env, deployAt);
      }
    }

    /** The pull loop and what follows it. */
    method PullAndDeploy(env: Environment, deployAt: int)
      requires |env.pulls| == |build.results| && build.status == BuildPulling
      modifies this`build, this`trace
      ensures build == End(AfterPulls(old(build), env), env, deployAt)
      ensures trace == old(trace) + PullTrace(old(build), env, deployAt)
    {
      var stopped, failed := PullAll(env);
      assert build == AfterPulls(old(build), env);
      Finish(env, deployAt, stopped, failed);
    }

    method Run(env: Environment, deployAt: int)
      requires |env.pulls| == |build.results| && trace == []
      modifies this
      ensures registered == old(registered) - {id}
      ensures trace == RunTrace(old(build), env, deployAt)
      ensures build == RunEnd(old(build), env, deployAt)
    {
      build := build.(status := BuildPulling);
      Persist();
      if env.parse.Some? {
        Fail(env.parse.value);
      } else {
        PullAndDeploy(env, deployAt);
      }
      registered := registered - {id};
    }
  }
}
