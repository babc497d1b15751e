/** What a whole run of a scheduled build (api/serviceinstance/service.go) comes to: what is pulled, when
    a deploy is requested, and how the build ends. */
module ScheduledBuildRuns {
  import opened ScheduledBuild
  import opened Wrappers
  import Sequential = SequentialOperation

  // ----- the pull loop

  /** A target's result once k targets have been dealt with: those before the first failure are ready,
      the failed one has its error, those behind it are skipped, and the rest is untouched. */
  lemma ReachedIs(initial: seq<TargetResult>, env: Environment, k: nat, i: nat)
    requires |initial| == |env.pulls| && i < |initial|
    ensures var (r, f) := (Reached(initial, env, k)[i], Sequential.FirstFailure(env.pulls));
            && r.environment == initial[i].environment
            && (i >= k ==> r == initial[i])
            && (i < k ==> r.status == if i < f then ImageReady else if i == f then TargetStatus.Failed else Skipped)
            && (i < k && i == f ==> Some(r.error) == env.pulls[f])
            && (i < k && i != f ==> r.error == initial[i].error)
  {
  }

  /** A target that is pulled is stored as pulling before, and with its outcome afterwards; one behind a
      failed one is only stored. */
  lemma TurnIs(build: Build, env: Environment, k: nat)
    requires k < |build.results| == |env.pulls|
    ensures var (turn, f) := (Turn(build, env, k), Sequential.FirstFailure(env.pulls));
            && |turn| == (if k <= f then 3 else 1)
            && turn[|turn| - 1] == Stored(build.(results := Reached(build.results, env, k + 1)))
            && (k <= f ==>
                  && turn[0].Stored? && turn[1] == Pulled(k)
                  && |turn[0].build.results| == |build.results| && turn[0].build.status == build.status
                  && turn[0].build.results[k].status == Pulling
                  && forall i :: 0 <= i < |build.results| && i != k ==>
                       turn[0].build.results[i] == Reached(build.results, env, k)[i])
  {
  }

  /** The targets pulled, in order. */
  ghost function PulledTargets(trace: seq<Event>): seq<nat> {
    if trace == [] then []
    else if trace[0].Pulled? then [trace[0].target] + PulledTargets(trace[1..])
    else PulledTargets(trace[1..])
  }

  lemma {:induction false} PulledAppend(a: seq<Event>, b: seq<Event>)
    ensures PulledTargets(a + b) == PulledTargets(a) + PulledTargets(b)
  {
    if a == [] {
      assert a + b == b;
    } else {
      assert (a + b)[1..] == a[1..] + b;
      PulledAppend(a[1..], b);
    }
  }

  ghost predicate NoPull(trace: seq<Event>) {
    forall i :: 0 <= i < |trace| ==> !trace[i].Pulled?
  }

  lemma {:induction false} NothingPulled(trace: seq<Event>)
    requires NoPull(trace)
    ensures PulledTargets(trace) == []
  {
    if trace != [] {
      NothingPulled(trace[1..]);
    }
  }

  lemma TurnPulls(build: Build, env: Environment, k: nat)
    requires k < |build.results| == |env.pulls|
    ensures PulledTargets(Turn(build, env, k)) == if k <= Sequential.FirstFailure(env.pulls) then [k] else []
  {
    var turn := Turn(build, env, k);
    if k <= Sequential.FirstFailure(env.pulls) {
      assert turn == [turn[0]] + ([Pulled(k)] + [turn[2]]);
      NothingPulled([turn[0]]);
      NothingPulled([turn[2]]);
      PulledAppend([turn[0]], [Pulled(k)] + [turn[2]]);
      PulledAppend([Pulled(k)], [turn[2]]);
      assert PulledTargets([Pulled(k)]) == [k] + PulledTargets([]);
    } else {
      NothingPulled(turn);
    }
  }

  ghost function UpTo(n: nat): seq<nat> {
    seq(n, i requires 0 <= i => i)
  }

  lemma {:induction false} TurnsPull(build: Build, env: Environment, n: nat)
    requires n <= |build.results| == |env.pulls|
    ensures var f := Sequential.FirstFailure(env.pulls);
            PulledTargets(Turns(build, env, n)) == UpTo(if f < n then f + 1 else n)
  {
    if n > 0 {
      TurnsPull(build, env, n - 1);
      PulledAppend(Turns(build, env, n - 1), Turn(build, env, n - 1));
      TurnPulls(build, env, n - 1);
      assert UpTo(n) == UpTo(n - 1) + [n - 1];
    }
  }

  /** Targets are pulled one after the other, up to and including the first that fails, and none once
      the build is cancelled or when its compose file is not understood. */
  lemma PullsStopAtTheFirstFailure(build: Build, env: Environment, deployAt: int)
    requires |env.pulls| == |build.results|
    ensures var (c, f) := (FirstCancelled(env, 0, |env.pulls|), Sequential.FirstFailure(env.pulls));
            PulledTargets(RunTrace(build, env, deployAt)) == UpTo(if env.parse.Some? then 0 else if f < c then f + 1 else c)
  {
    var start := build.(status := BuildPulling);
    if env.parse.Some? {
      NothingPulled(RunTrace(build, env, deployAt));
    } else {
      var turns, rest := Turns(start, env, FirstCancelled(env, 0, |env.pulls|)), EndTrace(AfterPulls(start, env), env, deployAt);
      TurnsPull(start, env, FirstCancelled(env, 0, |env.pulls|));
      NothingPulled([Stored(start)]);
      NothingPulled(rest);
      PulledAppend([Stored(start)], turns + rest);
      PulledAppend(turns, rest);
    }
  }

  // ----- the deploy

  ghost predicate Requested(trace: seq<Event>) {
    exists i :: 0 <= i < |trace| && trace[i].DeployRequested?
  }

  lemma {:induction false} TurnsRequestNothing(build: Build, env: Environment, n: nat)
    requires n <= |build.results| == |env.pulls|
    ensures !Requested(Turns(build, env, n))
  {
    if n > 0 {
      TurnsRequestNothing(build, env, n - 1);
    }
  }

  lemma RequestedInParts(a: seq<Event>, b: seq<Event>)
    ensures Requested(a + b) <==> Requested(a) || Requested(b)
  {
    if i :| 0 <= i < |a| && a[i].DeployRequested? {
      assert (a + b)[i] == a[i];
    }
    if i :| 0 <= i < |b| && b[i].DeployRequested? {
      assert (a + b)[|a| + i] == b[i];
    }
    if i :| 0 <= i < |a + b| && (a + b)[i].DeployRequested? {
      assert i < |a| ==> a[i].DeployRequested?;
      assert i >= |a| ==> b[i - |a|].DeployRequested?;
    }
  }

  /** The deploy operation is requested iff the compose file was understood, every target was pulled
      without an error and without a cancellation in between, the time came and the instance could be
      updated. */
  lemma DeployIffReady(build: Build, env: Environment, deployAt: int)
    requires |env.pulls| == |build.results|
    ensures Requested(RunTrace(build, env, deployAt))
            <==> env.parse.None?
                 && (forall i :: 0 <= i < |env.pulls| ==> env.pulls[i].None?)
                 && (forall i: nat :: i < |env.pulls| ==> !env.cancelled(i))
                 && (deployAt <= env.now || env.wake.Fired?)
                 && env.update.None?
  {
    var start, n := build.(status := BuildPulling), |env.pulls|;
    var c, f := FirstCancelled(env, 0, n), Sequential.FirstFailure(env.pulls);
    if env.parse.None? {
      var turns, rest := Turns(start, env, c), EndTrace(AfterPulls(start, env), env, deployAt);
      TurnsRequestNothing(start, env, c);
      RequestedInParts([Stored(start)], turns + rest);
      RequestedInParts(turns, rest);
      assert c < n ==> env.cancelled(c);
      assert f < n ==> env.pulls[f].Some?;
      if c == n && f == n && rest != [] && |rest| == 4 {
        assert rest[2].DeployRequested?;
      }
    }
  }

  lemma AllPulledAreReady(initial: seq<TargetResult>, env: Environment)
    requires |initial| == |env.pulls| && Sequential.FirstFailure(env.pulls) == |env.pulls|
    ensures AllReady(Reached(initial, env, |env.pulls|))
  {
    forall i: nat | i < |initial| ensures Reached(initial, env, |env.pulls|)[i].status == ImageReady {
      ReachedIs(initial, env, |env.pulls|, i);
    }
  }

  /** A request is the last thing done but for storing the build, comes right after the ready build was
      stored and the instance updated, is the only one, and is not made before its time. */
  lemma DeployIsRequestedInItsPlace(build: Build, env: Environment, deployAt: int)
    requires |env.pulls| == |build.results| && Requested(RunTrace(build, env, deployAt))
    ensures var trace := RunTrace(build, env, deployAt);
            var n := |trace|;
            && n >= 4 && trace[n - 2].DeployRequested? && trace[n - 3] == InstanceUpdated
            && trace[n - 4].Stored? && trace[n - 4].build.status == BuildImageReady && AllReady(trace[n - 4].build.results)
            && (forall j :: 0 <= j < n && j != n - 2 ==> !trace[j].DeployRequested?)
            && (env.TimerIsSound(deployAt) ==> trace[n - 2].at >= deployAt)
  {
    DeployIffReady(build, env, deployAt);
    var head := TraceWhenPulled(build, env, deployAt);
    AllPulledAreReady(build.results, env);
    LastFour(head, DeployTrace(AfterPulls(build, env), env, deployAt));
  }

  lemma TraceWhenPulled(build: Build, env: Environment, deployAt: int) returns (head: seq<Event>)
    requires |env.pulls| == |build.results| && env.parse.None?
    requires forall i: nat :: i < |env.pulls| ==> !env.cancelled(i)
    requires forall i :: 0 <= i < |env.pulls| ==> env.pulls[i].None?
    ensures RunTrace(build, env, deployAt) == head + DeployTrace(AfterPulls(build, env), env, deployAt)
    ensures !Requested(head)
    ensures AfterPulls(build, env).results == Reached(build.results, env, |env.pulls|) && Sequential.FirstFailure(env.pulls) == |env.pulls|
  {
    var start, n := build.(status := BuildPulling), |env.pulls|;
    assert FirstCancelled(env, 0, n) == n && Sequential.FirstFailure(env.pulls) == n;
    head := [Stored(start)] + Turns(start, env, n);
    TurnsRequestNothing(start, env, n);
    RequestedInParts([Stored(start)], Turns(start, env, n));
    assert AfterPulls(start, env) == AfterPulls(build, env);
  }

  lemma LastFour(head: seq<Event>, tail: seq<Event>)
    requires |tail| == 4
    ensures var all := head + tail;
            && |all| >= 4 && all[|all| - 4] == tail[0] && all[|all| - 3] == tail[1] && all[|all| - 2] == tail[2] && all[|all| - 1] == tail[3]
            && (forall i :: 0 <= i < |head| ==> all[i] == head[i])
  {
  }

  // ----- the end

  /** The last snapshot stored is the build as the run leaves it. */
  lemma EndIsStored(build: Build, env: Environment, deployAt: int)
    requires |env.pulls| == |build.results|
    ensures var trace := RunTrace(build, env, deployAt);
            trace != [] && trace[|trace| - 1] == Stored(RunEnd(build, env, deployAt))
  {
    var start, c := build.(status := BuildPulling), FirstCancelled(env, 0, |env.pulls|);
    if env.parse.None? && EndTrace(AfterPulls(start, env), env, deployAt) == [] {
      var turns := Turns(start, env, c);
      assert turns + [] == turns;
      if c == 0 {
        assert Reached(build.results, env, 0) == build.results;
      } else {
        TurnIs(start, env, c - 1);
      }
    }
  }

  /** A target is left as it was, unless it was waiting: then it is skipped. */
  predicate Settled(before: TargetResult, after: TargetResult) {
    && after.environment == before.environment && after.error == before.error
    && after.status == if before.status in {TargetStatus.Pending, Pulling} then Skipped else before.status
  }

  /** A compose file that is not understood fails the build with the error, and leaves nobody waiting. */
  lemma UnreadableBuildFails(build: Build, env: Environment, deployAt: int)
    requires |env.pulls| == |build.results| && env.parse.Some?
    ensures var end := RunEnd(build, env, deployAt);
            && end.status == BuildFailed && end.finished && Some(end.error) == env.parse && |end.results| == |build.results|
            && forall i :: 0 <= i < |build.results| ==> Settled(build.results[i], end.results[i])
  {
  }

  /** A build that is cancelled while pulling stops where it is: the targets it has come to have their
      outcomes, and the others are untouched. */
  lemma CancelledBuildStops(build: Build, env: Environment, deployAt: int)
    requires |env.pulls| == |build.results| && env.parse.None? && FirstCancelled(env, 0, |env.pulls|) < |env.pulls|
    ensures var (end, c, f) := (RunEnd(build, env, deployAt), FirstCancelled(env, 0, |env.pulls|), Sequential.FirstFailure(env.pulls));
            && end.status == BuildPulling && end.finished == build.finished && end.error == build.error && |end.results| == |build.results|
            && (forall i :: c <= i < |build.results| ==> end.results[i] == build.results[i])
            && (forall i :: 0 <= i < c ==>
                  end.results[i].status == if i < f then ImageReady else if i == f then TargetStatus.Failed else Skipped)
  {
  }

  /** An uncancelled build whose pull fails ends failed, with every target ready, failed with its error or
      skipped, in that order, whatever they were before. */
  lemma FailedBuildLeavesNobodyWaiting(build: Build, env: Environment, deployAt: int)
    requires |env.pulls| == |build.results| && env.parse.None?
    requires forall i: nat :: i < |env.pulls| ==> !env.cancelled(i)
    requires exists i :: 0 <= i < |env.pulls| && env.pulls[i].Some?
    ensures var (end, f) := (RunEnd(build, env, deployAt), Sequential.FirstFailure(env.pulls));
            && f < |env.pulls|
            && end.status == BuildFailed && end.finished && end.error == "image pull failed" && |end.results| == |build.results|
            && (forall i :: 0 <= i < |build.results| ==>
                  && end.results[i].environment == build.results[i].environment
                  && end.results[i].status == if i < f then ImageReady else if i == f then TargetStatus.Failed else Skipped)
            && Some(end.results[f].error) == env.pulls[f]
  {
    var n, c, f := |env.pulls|, FirstCancelled(env, 0, |env.pulls|), Sequential.FirstFailure(env.pulls);
    assert c == n;
    forall i: nat | i < n
      ensures var r := Reached(build.results, env, n)[i];
              r.environment == build.results[i].environment
              && r.status == if i < f then ImageReady else if i == f then TargetStatus.Failed else Skipped
    {
      ReachedIs(build.results, env, n, i);
    }
    ReachedIs(build.results, env, n, f);
  }

  /** A build that is pulled completely ends waiting when it is cancelled before its time, failed with
      the error when it cannot be deployed, and otherwise with every target deployed. */
  lemma PulledBuildIsDeployed(build: Build, env: Environment, deployAt: int)
    requires |env.pulls| == |build.results| && env.parse.None?
    requires forall i: nat :: i < |env.pulls| ==> !env.cancelled(i)
    requires forall i :: 0 <= i < |env.pulls| ==> env.pulls[i].None?
    ensures var end := RunEnd(build, env, deployAt);
            && |end.results| == |build.results|
            && (forall i :: 0 <= i < |end.results| ==> end.results[i].environment == build.results[i].environment)
            && if env.now < deployAt && env.wake.Cancelled? then
                 end.status == BuildImageReady && AllReady(end.results) && end.finished == build.finished
               else if env.update.Some? || env.execute.Some? then
                 && end.status == BuildFailed && end.finished && AllReady(end.results)
                 && Some(end.error) == (if env.update.Some? then env.update else env.execute)
               else
                 && end.status == BuildDeployed && end.finished
                 && forall i :: 0 <= i < |end.results| ==> end.results[i].status == Deployed
  {
    var n := |env.pulls|;
    assert FirstCancelled(env, 0, n) == n && Sequential.FirstFailure(env.pulls) == n;
    forall i: nat | i < n
      ensures Reached(build.results, env, n)[i].status == ImageReady
              && Reached(build.results, env, n)[i].environment == build.results[i].environment
    {
      ReachedIs(build.results, env, n, i);
    }
  }
}
