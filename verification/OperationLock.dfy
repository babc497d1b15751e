/** The per-instance operation lock of api/serviceinstance: any number of callers and operation
    goroutines, each taking the service mutex around its uses of the `running` map. */
module OperationLock {
  import opened Wrappers
  import opened Tally

  type InstanceId = nat

  /** Program points of ExecuteOperation, of the goroutine it starts and of releaseOperation. The
      `In...` points are inside a critical section. */
  datatype Pc =
    | Entering | InEntry | Rejected
    | Reading | Resolving | Creating | Accepted
    | Executing
    | Releasing | InRelease | Done

  /** `token` numbers the acquisition a thread works under; `operation` tells the goroutines from the
      callers. */
  datatype Thread = Thread(id: InstanceId, pc: Pc, token: nat, operation: bool)

  /** `releases[k]` counts how often acquisition k has been released. */
  datatype State = State(mu: Option<nat>, running: set<InstanceId>, threads: seq<Thread>, releases: seq<nat>)

  /** `ok` is the outcome of the call at the thread's program point: the two reads, the creation
      of the record, or the whole operation. */
  datatype Step = Arrive(id: InstanceId) | Lock(t: nat) | Unlock(t: nat) | Return(t: nat, ok: bool)

  const INIT := State(None, {}, [], [])

  predicate InSection(th: Thread) {
    th.pc.InEntry? || th.pc.InRelease?
  }

  predicate Calling(th: Thread) {
    th.pc.Reading? || th.pc.Resolving? || th.pc.Creating? || th.pc.Executing?
  }

  /** From its successful check until its release, a thread holds its instance. */
  predicate Holds(th: Thread) {
    Calling(th) || th.pc.Releasing? || th.pc.InRelease?
  }

  predicate Enabled(s: State, step: Step) {
    match step
    case Arrive(_) => true
    case Lock(t) => s.mu.None? && t < |s.threads| && (s.threads[t].pc.Entering? || s.threads[t].pc.Releasing?)
    case Unlock(t) => t < |s.threads| && InSection(s.threads[t])
    case Return(t, _) => t < |s.threads| && Calling(s.threads[t])
  }

  function Move(s: State, t: nat, pc: Pc): State
    requires t < |s.threads|
  {
    s.(threads := s.threads[t := s.threads[t].(pc := pc)])
  }

  function Count(releases: seq<nat>, token: nat): seq<nat> {
    if token < |releases| then releases[token := releases[token] + 1] else releases
  }

  function Apply(s: State, step: Step): State
    requires Enabled(s, step)
  {
    match step
    case Arrive(id) => s.(threads := s.threads + [Thread(id, Entering, 0, false)])
    case Lock(t) => Move(s, t, if s.threads[t].pc.Entering? then InEntry else InRelease).(mu := Some(t))
    case Unlock(t) =>
      var me := s.threads[t];
      if me.pc.InRelease? then
        Move(s, t, Done).(mu := None, running := s.running - {me.id},
                          releases := Count(s.releases, me.token))
      else if me.id in s.running then
        Move(s, t, Rejected).(mu := None)
      else
        s.(mu := None, running := s.running + {me.id}, releases := s.releases + [0],
           threads := s.threads[t := Thread(me.id, Reading, |s.releases|, false)])
    case Return(t, ok) =>
      var me := s.threads[t];
      match me.pc
      case Reading => Move(s, t, if ok then Resolving else Releasing)
      case Resolving => Move(s, t, if ok then Creating else Releasing)
      case Creating =>
        if ok then
          var accepted := Move(s, t, Accepted);
          accepted.(threads := accepted.threads + [Thread(me.id, Executing, me.token, true)])
        else Move(s, t, Releasing)
      case _ => Move(s, t, Releasing)
  }

  ghost function Run(schedule: seq<Step>): Option<State> {
    if schedule == [] then Some(INIT)
    else
      var last := |schedule| - 1;
      match Run(schedule[..last])
      case None => None
      case Some(s) => if Enabled(s, schedule[last]) then Some(Apply(s, schedule[last])) else None
  }

  ghost predicate Holder(s: State, t: nat) {
    t < |s.threads| && Holds(s.threads[t])
  }

  ghost predicate MutexInv(s: State) {
    && (forall t :: 0 <= t < |s.threads| ==> (InSection(s.threads[t]) <==> s.mu == Some(t)))
    && (s.mu.Some? ==> s.mu.value < |s.threads|)
  }

  ghost predicate HolderInv(s: State) {
    && (forall t: nat :: Holder(s, t) ==>
          s.threads[t].id in s.running && s.threads[t].token < |s.releases| && s.releases[s.threads[t].token] == 0)
    && (forall t: nat, u: nat :: Holder(s, t) && Holder(s, u) && t != u ==>
          s.threads[t].id != s.threads[u].id && s.threads[t].token != s.threads[u].token)
  }

  ghost predicate Taken(s: State, id: InstanceId) {
    exists t: nat :: Holder(s, t) && s.threads[t].id == id
  }

  ghost predicate Working(s: State, k: nat) {
    exists t: nat :: Holder(s, t) && s.threads[t].token == k
  }

  /** Nothing leaks: what is marked running, or not yet released, has a thread working on it. */
  ghost predicate NoLeak(s: State) {
    && (forall id :: id in s.running ==> Taken(s, id))
    && (forall k: nat :: k < |s.releases| ==> s.releases[k] == 1 || (s.releases[k] == 0 && Working(s, k)))
  }

  ghost predicate Inv(s: State) {
    MutexInv(s) && HolderInv(s) && NoLeak(s)
  }

  /** Where the holder at position t in s is in s': in place, or carried on by the goroutine it
      started, unless it has just released. */
  lemma HolderContinues(s: State, step: Step, t: nat) returns (u: nat)
    requires Enabled(s, step) && Holder(s, t)
    requires !(step == Unlock(t) && s.threads[t].pc.InRelease?)
    requires Inv(s)
    ensures Holder(Apply(s, step), u)
    ensures Apply(s, step).threads[u].id == s.threads[t].id && Apply(s, step).threads[u].token == s.threads[t].token
  {
    var s' := Apply(s, step);
    u := if Holds(s'.threads[t]) then t else |s.threads|;
  }

  lemma StepKeepsTaken(s: State, step: Step)
    requires Inv(s) && Enabled(s, step)
    ensures forall id :: id in Apply(s, step).running ==> Taken(Apply(s, step), id)
  {
    var s' := Apply(s, step);
    forall id | id in s'.running ensures Taken(s', id) {
      if id in s.running {
        var t: nat :| Holder(s, t) && s.threads[t].id == id;
        var u := HolderContinues(s, step, t);
      } else {
        assert Holder(s', step.t);
      }
    }
  }

  lemma StepKeepsWorking(s: State, step: Step)
    requires Inv(s) && Enabled(s, step)
    ensures forall k: nat :: k < |Apply(s, step).releases| ==>
              Apply(s, step).releases[k] == 1 || (Apply(s, step).releases[k] == 0 && Working(Apply(s, step), k))
  {
    var s' := Apply(s, step);
    forall k: nat | k < |s'.releases|
      ensures s'.releases[k] == 1 || (s'.releases[k] == 0 && Working(s', k))
    {
      if k == |s.releases| {
        assert Holder(s', step.t);
      } else if s.releases[k] == 0 {
        var t: nat :| Holder(s, t) && s.threads[t].token == k;
        if step == Unlock(t) && s.threads[t].pc.InRelease? {
          assert s'.releases[k] == 1;
        } else {
          var u := HolderContinues(s, step, t);
          assert step.Unlock? && s.threads[step.t].pc.InRelease? ==> Holder(s, step.t);
        }
      } else {
        assert step.Unlock? && s.threads[step.t].pc.InRelease? ==> Holder(s, step.t);
      }
    }
  }

  /** Each holder of s' continues one of s, or is the thread that has just acquired. */
  lemma HolderCameFrom(s: State, step: Step, u: nat) returns (t: nat)
    requires Inv(s) && Enabled(s, step) && Holder(Apply(s, step), u)
    ensures var s' := Apply(s, step);
            || (Holder(s, t) && s'.threads[u].id == s.threads[t].id && s'.threads[u].token == s.threads[t].token
                && (t == u || (u == |s.threads| && !Holder(s', t) && step == Return(t, true))) && step != Unlock(t))
            || (t == u && step == Unlock(t) && s'.threads[u].id !in s.running && s'.threads[u].id in s'.running
                && s'.threads[u].token == |s.releases| && |s'.releases| == |s.releases| + 1 && s'.releases[|s.releases|] == 0)
  {
    t := if u < |s.threads| then u else step.t;
  }

  lemma StepKeepsHolders(s: State, step: Step)
    requires Inv(s) && Enabled(s, step)
    ensures HolderInv(Apply(s, step))
  {
    var s' := Apply(s, step);
    forall u: nat | Holder(s', u)
      ensures s'.threads[u].id in s'.running && s'.threads[u].token < |s'.releases| && s'.releases[s'.threads[u].token] == 0
    {
      var t := HolderCameFrom(s, step, u);
      if step.Unlock? && s.threads[step.t].pc.InRelease? {
        assert Holder(s, step.t) && Holder(s, t) && t != step.t;
      }
    }
    forall u: nat, v: nat | Holder(s', u) && Holder(s', v) && u != v
      ensures s'.threads[u].id != s'.threads[v].id && s'.threads[u].token != s'.threads[v].token
    {
      var t := HolderCameFrom(s, step, u);
      var w := HolderCameFrom(s, step, v);
      assert t != w;
    }
  }

  lemma StepKeepsInv(s: State, step: Step)
    requires Inv(s) && Enabled(s, step)
    ensures Inv(Apply(s, step))
  {
    StepKeepsTaken(s, step);
    StepKeepsWorking(s, step);
    StepKeepsHolders(s, step);
    StepKeepsMutex(s, step);
  }

  lemma StepKeepsMutex(s: State, step: Step)
    requires MutexInv(s) && Enabled(s, step)
    ensures MutexInv(Apply(s, step))
  {
  }

  lemma {:induction false} RunKeepsInv(schedule: seq<Step>)
    requires Run(schedule).Some?
    ensures Inv(Run(schedule).value)
  {
    if schedule != [] {
      var last := |schedule| - 1;
      RunKeepsInv(schedule[..last]);
      StepKeepsInv(Run(schedule[..last]).value, schedule[last]);
    }
  }

  // ----- main results

  /** In every reachable state an instance is marked running iff one thread holds it, and it is
      never more than one; at most one thread is inside a critical section. */
  lemma RunningMeansOneHolder(schedule: seq<Step>, id: InstanceId)
    requires Run(schedule).Some?
    ensures id in Run(schedule).value.running <==> Taken(Run(schedule).value, id)
    ensures forall t: nat, u: nat :: Holder(Run(schedule).value, t) && Holder(Run(schedule).value, u) && t != u
                           ==> Run(schedule).value.threads[t].id != Run(schedule).value.threads[u].id
    ensures forall t, u :: 0 <= t < u < |Run(schedule).value.threads| && InSection(Run(schedule).value.threads[t])
                           ==> !InSection(Run(schedule).value.threads[u])
  {
    RunKeepsInv(schedule);
  }

  /** An acquisition is released at most once ever, and is still unreleased iff some thread works
      under it. */
  lemma ReleasedOnce(schedule: seq<Step>, k: nat)
    requires Run(schedule).Some? && k < |Run(schedule).value.releases|
    ensures Run(schedule).value.releases[k] <= 1
    ensures Run(schedule).value.releases[k] == 0 <==> Working(Run(schedule).value, k)
  {
    RunKeepsInv(schedule);
  }

  /** A caller that has reached the check is turned away iff its own instance is held by some thread,
      whatever the others do; otherwise it becomes the holder. */
  lemma EntryIsDecidedByOwnInstance(schedule: seq<Step>, t: nat)
    requires Run(schedule).Some? && Enabled(Run(schedule).value, Unlock(t)) && Run(schedule).value.threads[t].pc.InEntry?
    ensures var s := Run(schedule).value;
            var s' := Apply(s, Unlock(t));
            && (s'.threads[t].pc.Rejected? <==> exists u: nat :: Holder(s, u) && s.threads[u].id == s.threads[t].id)
            && (!s'.threads[t].pc.Rejected? ==> Holder(s', t) && s'.threads[t].id == s.threads[t].id)
            && (forall u: nat :: Holder(s, u) ==> Holder(s', u))
  {
    RunKeepsInv(schedule);
    var s := Run(schedule).value;
    var s' := Apply(s, Unlock(t));
    assert s.threads[t].id in s.running <==> Taken(s, s.threads[t].id);
    forall u: nat | Holder(s, u) ensures Holder(s', u) {
      assert u != t;
    }
  }

  /** Whoever arrives for an instance is a new caller for that one, and no thread ever changes to
      another; a goroutine is for its caller's. */
  lemma InstancesStay(s: State, step: Step, t: nat)
    requires Enabled(s, step)
    ensures t < |s.threads| ==> t < |Apply(s, step).threads| && Apply(s, step).threads[t].id == s.threads[t].id
    ensures step.Arrive? ==> |Apply(s, step).threads| == |s.threads| + 1
                             && Apply(s, step).threads[|s.threads|].id == step.id && Apply(s, step).threads[|s.threads|].pc.Entering?
    ensures !step.Arrive? && t >= |s.threads| && t < |Apply(s, step).threads| ==>
              t == |s.threads| && Apply(s, step).threads[t].operation && Apply(s, step).threads[t].id == s.threads[step.t].id
  {
  }

  ghost function Arrived(schedule: seq<Step>): seq<InstanceId> {
    if schedule == [] then []
    else Arrived(schedule[..|schedule| - 1]) + if schedule[|schedule| - 1].Arrive? then [schedule[|schedule| - 1].id] else []
  }

  /** The instances of the threads that are callers, in their order. */
  ghost function Callers(threads: seq<Thread>): seq<InstanceId> {
    if threads == [] then []
    else Callers(threads[..|threads| - 1]) + if threads[|threads| - 1].operation then [] else [threads[|threads| - 1].id]
  }

  lemma {:induction false} CallersUpdate(threads: seq<Thread>, t: nat, th: Thread)
    requires t < |threads| && th.id == threads[t].id && th.operation == threads[t].operation
    ensures Callers(threads[t := th]) == Callers(threads)
  {
    var last := |threads| - 1;
    if t == last {
      assert threads[t := th][..last] == threads[..last];
    } else {
      assert threads[t := th][..last] == threads[..last][t := th];
      CallersUpdate(threads[..last], t, th);
    }
  }

  lemma CallersAppend(threads: seq<Thread>, th: Thread)
    ensures Callers(threads + [th]) == Callers(threads) + if th.operation then [] else [th.id]
  {
    assert (threads + [th])[..|threads|] == threads;
  }

  lemma StepKeepsCallers(s: State, step: Step)
    requires Enabled(s, step) && (step.Unlock? && s.threads[step.t].pc.InEntry? ==> !s.threads[step.t].operation)
    ensures Callers(Apply(s, step).threads) == Callers(s.threads) + if step.Arrive? then [step.id] else []
  {
    if step.Arrive? {
      CallersAppend(s.threads, Thread(step.id, Entering, 0, false));
    } else {
      var t := step.t;
      var th := Apply(s, step).threads[t];
      CallersUpdate(s.threads, t, th);
      if step.Return? && step.ok && s.threads[t].pc.Creating? {
        CallersAppend(s.threads[t := th], Thread(s.threads[t].id, Executing, s.threads[t].token, true));
        assert Apply(s, step).threads == s.threads[t := th] + [Thread(s.threads[t].id, Executing, s.threads[t].token, true)];
      } else {
        assert Apply(s, step).threads == s.threads[t := th];
      }
    }
  }

  /** The callers are those that have arrived, each for its own instance. */
  lemma {:induction false} CallersAreThoseWhoArrived(schedule: seq<Step>)
    requires Run(schedule).Some?
    ensures Callers(Run(schedule).value.threads) == Arrived(schedule)
  {
    if schedule != [] {
      var before, step := schedule[..|schedule| - 1], schedule[|schedule| - 1];
      CallersAreThoseWhoArrived(before);
      if !step.Arrive? {
        ThreadsFollowTheirCalls(before, step.t);
      }
      StepKeepsCallers(Run(before).value, step);
    }
  }

  function Answered(step: Step, t: nat): seq<bool> {
    if step.Return? && step.t == t then [step.ok] else []
  }

  /** What the calls of thread t have returned so far. */
  ghost function Answers(schedule: seq<Step>, t: nat): seq<bool> {
    if schedule == [] then []
    else Answers(schedule[..|schedule| - 1], t) + Answered(schedule[|schedule| - 1], t)
  }

  /** How far a thread has come, told from what its calls returned: a caller goes through its three
      calls, is accepted when all have succeeded and releases after the first that fails; an operation
      releases after its one call, whatever that returned. */
  ghost predicate Follows(th: Thread, answers: seq<bool>) {
    match th.pc
    case Entering => !th.operation && answers == []
    case InEntry => !th.operation && answers == []
    case Rejected => !th.operation && answers == []
    case Reading => !th.operation && answers == []
    case Resolving => !th.operation && answers == [true]
    case Creating => !th.operation && answers == [true, true]
    case Accepted => !th.operation && answers == [true, true, true]
    case Executing => th.operation && answers == []
    case _ => if th.operation then |answers| == 1 else answers == [false] || answers == [true, false] || answers == [true, true, false]
  }

  lemma StepFollows(s: State, step: Step, t: nat, answers: seq<bool>)
    requires Enabled(s, step) && t < |s.threads| && Follows(s.threads[t], answers)
    ensures Follows(Apply(s, step).threads[t], answers + Answered(step, t))
  {
    assert answers + [] == answers;
  }

  /** A thread that is there is where its calls have led it, and one that is not has made none. */
  ghost predicate Told(s: State, t: nat, answers: seq<bool>) {
    if t < |s.threads| then Follows(s.threads[t], answers) else answers == []
  }

  lemma StepKeepsTold(s: State, step: Step, t: nat, answers: seq<bool>)
    requires Enabled(s, step) && Told(s, t, answers)
    ensures Told(Apply(s, step), t, answers + Answered(step, t))
  {
    if t < |s.threads| {
      StepFollows(s, step, t, answers);
    } else {
      assert Answered(step, t) == [] && answers + [] == [];
    }
  }

  lemma {:induction false} ThreadsFollowTheirCalls(schedule: seq<Step>, t: nat)
    requires Run(schedule).Some?
    ensures Told(Run(schedule).value, t, Answers(schedule, t))
  {
    if schedule != [] {
      var before, step := schedule[..|schedule| - 1], schedule[|schedule| - 1];
      ThreadsFollowTheirCalls(before, t);
      StepKeepsTold(Run(before).value, step, t, Answers(before, t));
    }
  }

  /** A caller's operation goroutine: it works under the caller's token. */
  ghost predicate Started(s: State, t: nat, u: nat) {
    t < |s.threads| && u < |s.threads| && s.threads[u].operation
    && s.threads[u].id == s.threads[t].id && s.threads[u].token == s.threads[t].token
  }

  /** An operation that has been started stays under its caller's token. */
  lemma StaysStarted(schedule: seq<Step>, step: Step, t: nat, u: nat)
    requires Run(schedule).Some? && Enabled(Run(schedule).value, step)
    requires Started(Run(schedule).value, t, u) && Run(schedule).value.threads[t].pc.Accepted?
    ensures Started(Apply(Run(schedule).value, step), t, u)
  {
    ThreadsFollowTheirCalls(schedule, u);
  }

  lemma {:induction false} OperationIsStarted(schedule: seq<Step>, t: nat) returns (u: nat)
    requires Run(schedule).Some? && t < |Run(schedule).value.threads| && Run(schedule).value.threads[t].pc.Accepted?
    ensures Started(Run(schedule).value, t, u)
  {
    var before, step := schedule[..|schedule| - 1], schedule[|schedule| - 1];
    var s := Run(before).value;
    if t < |s.threads| && s.threads[t].pc.Accepted? {
      u := OperationIsStarted(before, t);
      StaysStarted(before, step, t, u);
    } else {
      u := |s.threads|;
    }
  }

  /** A caller is accepted iff its instance was free and its three calls have all succeeded, and then an
      operation has been started under its acquisition. */
  lemma AcceptedIffAllCallsSucceed(schedule: seq<Step>, t: nat)
    requires Run(schedule).Some? && t < |Run(schedule).value.threads| && !Run(schedule).value.threads[t].operation
    ensures Run(schedule).value.threads[t].pc.Accepted? <==> Answers(schedule, t) == [true, true, true]
    ensures Run(schedule).value.threads[t].pc.Accepted? ==> exists u: nat :: Started(Run(schedule).value, t, u)
    ensures Run(schedule).value.threads[t].pc.Releasing? || Run(schedule).value.threads[t].pc.InRelease? || Run(schedule).value.threads[t].pc.Done?
            <==> false in Answers(schedule, t)
    ensures Run(schedule).value.threads[t].pc.Rejected? ==> Answers(schedule, t) == []
  {
    ThreadsFollowTheirCalls(schedule, t);
    if Run(schedule).value.threads[t].pc.Accepted? {
      var u := OperationIsStarted(schedule, t);
    }
  }

  lemma RunOneMore(schedule: seq<Step>, step: Step)
    requires Run(schedule).Some? && Enabled(Run(schedule).value, step)
    ensures Run(schedule + [step]) == Some(Apply(Run(schedule).value, step))
  {
    assert (schedule + [step])[..|schedule|] == schedule;
  }

  /** Whenever no thread is in a critical section, a new call can be made for any instance, and be let in
      or turned away at once. */
  lemma CallCanBeMade(schedule: seq<Step>, id: InstanceId) returns (longer: seq<Step>, t: nat)
    requires Run(schedule).Some? && Run(schedule).value.mu.None?
    ensures t == |Run(schedule).value.threads| && schedule <= longer && Run(longer).Some? && Run(longer).value.mu.None?
    ensures t < |Run(longer).value.threads| && Run(longer).value.threads[t].id == id
    ensures Run(longer).value.threads[t].pc == if Taken(Run(schedule).value, id) then Rejected else Reading
  {
    RunKeepsInv(schedule);
    t := |Run(schedule).value.threads|;
    RunOneMore(schedule, Arrive(id));
    longer := schedule + [Arrive(id)];
    RunOneMore(longer, Lock(t));
    longer := longer + [Lock(t)];
    RunOneMore(longer, Unlock(t));
    longer := longer + [Unlock(t)];
  }

  /** A caller that has been let in can go on to be accepted. */
  lemma CallCanBeAccepted(schedule: seq<Step>, t: nat) returns (longer: seq<Step>)
    requires Run(schedule).Some? && t < |Run(schedule).value.threads| && Run(schedule).value.threads[t].pc.Reading?
    ensures schedule <= longer && Run(longer).Some? && t < |Run(longer).value.threads| && Run(longer).value.threads[t].pc.Accepted?
  {
    RunOneMore(schedule, Return(t, true));
    longer := schedule + [Return(t, true)];
    RunOneMore(longer, Return(t, true));
    longer := longer + [Return(t, true)];
    RunOneMore(longer, Return(t, true));
    longer := longer + [Return(t, true)];
  }

  /** So the first call for any instance can be accepted. */
  lemma FirstCallCanBeAccepted(id: InstanceId) returns (schedule: seq<Step>)
    ensures Run(schedule).Some? && |Run(schedule).value.threads| > 0 && Run(schedule).value.threads[0].pc.Accepted?
  {
    var t;
    assert Run([]) == Some(INIT);
    schedule, t := CallCanBeMade([], id);
    schedule := CallCanBeAccepted(schedule, t);
  }

  /** No step but the arrival of new callers can be taken. */
  ghost predicate Quiet(s: State) {
    forall step: Step :: Enabled(s, step) ==> step.Arrive?
  }

  /** Without new callers nothing is stuck until every acquisition has been released: in a quiet
      state no instance is marked running and every thread has finished. */
  lemma QuietMeansReleased(schedule: seq<Step>)
    requires Run(schedule).Some? && Quiet(Run(schedule).value)
    ensures Run(schedule).value.running == {} && Run(schedule).value.mu.None?
    ensures forall k: nat :: k < |Run(schedule).value.releases| ==> Run(schedule).value.releases[k] == 1
    ensures forall t :: 0 <= t < |Run(schedule).value.threads| ==>
              Run(schedule).value.threads[t].pc.Rejected? || Run(schedule).value.threads[t].pc.Accepted?
              || Run(schedule).value.threads[t].pc.Done?
  {
    RunKeepsInv(schedule);
    var s := Run(schedule).value;
    if s.mu.Some? {
      assert Enabled(s, Unlock(s.mu.value));
    }
    forall t: nat | t < |s.threads|
      ensures !Holds(s.threads[t]) && !InSection(s.threads[t]) && !s.threads[t].pc.Entering?
    {
      assert !Enabled(s, Lock(t));
      assert !Enabled(s, Unlock(t));
      assert !Enabled(s, Return(t, true));
    }
    assert forall id :: id in s.running ==> Taken(s, id);
  }

  /** The most steps a thread, and the goroutine it may start, can still take. */
  ghost function Owes(th: Thread): nat {
    match th.pc
    case Entering => 10
    case InEntry => 9
    case Reading => 8
    case Resolving => 7
    case Creating => 6
    case Executing => 3
    case Releasing => 2
    case InRelease => 1
    case _ => 0
  }

  lemma StepUsesUp(s: State, step: Step)
    requires Inv(s) && Enabled(s, step)
    ensures step.Arrive? ==> Sum(Apply(s, step).threads, Owes) == Sum(s.threads, Owes) + 10
    ensures !step.Arrive? ==> Sum(Apply(s, step).threads, Owes) < Sum(s.threads, Owes)
  {
    var s' := Apply(s, step);
    if step.Arrive? {
      SumAppend(s.threads, Thread(step.id, Entering, 0, false), Owes);
    } else if step.Return? && step.ok && s.threads[step.t].pc.Creating? {
      StartUsesUp(s, step.t);
    } else {
      StepMoves(s, step);
      SumUpdate(s.threads, step.t, s'.threads[step.t], Owes);
    }
  }

  /** Any other step moves one thread on. */
  lemma StepMoves(s: State, step: Step)
    requires Inv(s) && Enabled(s, step) && !step.Arrive? && !(step.Return? && step.ok && s.threads[step.t].pc.Creating?)
    ensures var s' := Apply(s, step);
            |s'.threads| == |s.threads| && s'.threads == s.threads[step.t := s'.threads[step.t]]
            && Owes(s'.threads[step.t]) < Owes(s.threads[step.t])
  {
  }

  /** A caller that starts a goroutine hands over part of what it owes. */
  lemma StartUsesUp(s: State, t: nat)
    requires t < |s.threads| && s.threads[t].pc.Creating?
    ensures Sum(Apply(s, Return(t, true)).threads, Owes) < Sum(s.threads, Owes)
  {
    var me := s.threads[t];
    var moved := Move(s, t, Accepted).threads;
    SumUpdate(s.threads, t, me.(pc := Accepted), Owes);
    SumAppend(moved, Thread(me.id, Executing, me.token, true), Owes);
  }

  ghost function Arrivals(schedule: seq<Step>): nat {
    if schedule == [] then 0
    else Arrivals(schedule[..|schedule| - 1]) + if schedule[|schedule| - 1].Arrive? then 1 else 0
  }

  /** Each caller accounts for at most eleven steps, so with finitely many callers every run comes
      to rest, and then QuietMeansReleased applies. */
  lemma {:induction false} RunsAreBounded(schedule: seq<Step>)
    requires Run(schedule).Some?
    ensures |schedule| + Sum(Run(schedule).value.threads, Owes) <= 11 * Arrivals(schedule)
  {
    if schedule != [] {
      var last := |schedule| - 1;
      RunsAreBounded(schedule[..last]);
      RunKeepsInv(schedule[..last]);
      StepUsesUp(Run(schedule[..last]).value, schedule[last]);
    }
  }
}
