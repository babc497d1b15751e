/** The table of reverse tunnels (api/chisel/tunnel.go) and the periodic check on it
    (api/chisel/service.go). */
module TunnelTable {
  import opened Ranges
  import opened Wrappers

  const MIN_AVAILABLE_PORT := 49152
  const MAX_AVAILABLE_PORT := 65535
  const ACTIVE_TIMEOUT := 270_000_000_000   // four and a half minutes, in nanoseconds

  datatype Status = Idle | Required

  datatype Tunnel = Tunnel(status: Status, port: int, lastActivity: int, hasSnapshot: bool)

  type EndpointId = nat
  type Table = map<EndpointId, Tunnel>

  datatype Endpoint = Endpoint(id: EndpointId, isEdge: bool, asyncMode: bool, edgeId: string, userTrusted: bool)

  /** One attempt at a port: the random number drawn, and whether something already listens there. */
  datatype Draw = Draw(value: int, listening: bool)

  predicate DrawOk(d: Draw) { 0 <= d.value < MAX_AVAILABLE_PORT - MIN_AVAILABLE_PORT }

  datatype OpenResult = Opened | ErrNonEdgeEnv | ErrAsyncEnv | ErrInvalidEnv | ErrCredentials | StillDrawing

  predicate PortUsed(t: Table, port: int) { exists e :: e in t && t[e].port == port }

  /** The first port drawn that no tunnel has and nothing listens on. */
  function UnusedPort(t: Table, draws: seq<Draw>): Option<int> {
    if draws == [] then None
    else
      var port := MIN_AVAILABLE_PORT + draws[0].value;
      if PortUsed(t, port) || draws[0].listening then UnusedPort(t, draws[1..]) else Some(port)
  }

  function Refusal(e: Endpoint): Option<OpenResult> {
    if !e.isEdge then Some(ErrNonEdgeEnv)
    else if e.asyncMode then Some(ErrAsyncEnv)
    else if e.id == 0 || e.edgeId == "" || !e.userTrusted then Some(ErrInvalidEnv)
    else None
  }

  function Opening(t: Table, e: Endpoint, draws: seq<Draw>, credentialsOk: bool, now: int): (Table, OpenResult) {
    if Refusal(e).Some? then (t, Refusal(e).value)
    else if e.id in t then (t, Opened)
    else match UnusedPort(t, draws)
         case None => (t, StillDrawing)
         case Some(port) =>
           if credentialsOk then (t[e.id := Tunnel(Required, port, now, false)], Opened) else (t, ErrCredentials)
  }

  function Active(t: Table, id: EndpointId, now: int): Table {
    if id in t then t[id := t[id].(lastActivity := now)] else t
  }

  function Marked(t: Table, id: EndpointId): Table {
    if id in t then t[id := t[id].(hasSnapshot := true)] else t
  }

  /** What the check decides to do: nothing, take a first snapshot, or snapshot and close. */
  datatype Decision = Rest | First(id: EndpointId, port: int) | Expired(id: EndpointId, port: int)

  function Judge(id: EndpointId, tunnel: Tunnel, now: int): Decision {
    var elapsed := now - tunnel.lastActivity;
    if !tunnel.hasSnapshot && elapsed < ACTIVE_TIMEOUT then First(id, tunnel.port)
    else if tunnel.status.Required? && elapsed < ACTIVE_TIMEOUT then Rest
    else Expired(id, tunnel.port)
  }

  /** The decision on the first tunnel, in the order visited, that needs one. */
  function Decide(t: Table, order: seq<EndpointId>, now: int): Decision
    requires forall i :: 0 <= i < |order| ==> order[i] in t
  {
    if order == [] then Rest
    else if !Judge(order[0], t[order[0]], now).Rest? then Judge(order[0], t[order[0]], now)
    else Decide(t, order[1..], now)
  }

  // ----- the code

  class Service {
    var activeTunnels: Table

    constructor ()
      ensures activeTunnels == map[]
    {
      activeTunnels := map[];
    }

    /** getUnusedPort; it draws again until a draw will do, so `draws` may run out. */
    method GetUnusedPort(draws: seq<Draw>) returns (port: Option<int>)
      ensures port == UnusedPort(activeTunnels, draws)
      decreases |draws|
    {
      if draws == [] {
        return None;
      }
      var p := MIN_AVAILABLE_PORT + draws[0].value;
      var ids := activeTunnels.Keys;
      while ids != {}
        invariant ids <= activeTunnels.Keys
        invariant forall e :: e in activeTunnels && e !in ids ==> activeTunnels[e].port != p
        decreases |ids|
      {
        var e :| e in ids;
        if activeTunnels[e].port == p {
          port := GetUnusedPort(draws[1..]);
          return;
        }
        ids := ids - {e};
      }
      if draws[0].listening {
        port := GetUnusedPort(draws[1..]);
        return;
      }
      port := Some(p);
    }

    method Open(e: Endpoint, draws: seq<Draw>, credentialsOk: bool, now: int) returns (r: OpenResult)
      modifies this
      ensures (activeTunnels, r) == Opening(old(activeTunnels), e, draws, credentialsOk, now)
    {
      if !e.isEdge {
        return ErrNonEdgeEnv;
      }
      if e.asyncMode {
        return ErrAsyncEnv;
      }
      if e.id == 0 || e.edgeId == "" || !e.userTrusted {
        return ErrInvalidEnv;
      }
      if e.id in activeTunnels {
        return Opened;
      }
      var port := GetUnusedPort(draws);
      if port.None? {
        return StillDrawing;
      }
      if !credentialsOk {
        return ErrCredentials;
      }
      activeTunnels := activeTunnels[e.id := Tunnel(Required, port.value, now, false)];
      r := Opened;
    }

    method Close(id: EndpointId)
      modifies this
      ensures activeTunnels == old(activeTunnels) - {id}
    {
      if id !in activeTunnels {
        assert activeTunnels - {id} == activeTunnels;
        return;
      }
      activeTunnels := activeTunnels - {id};
    }

    method Config(id: EndpointId) returns (tunnel: Tunnel)
      ensures id in activeTunnels ==> tunnel == activeTunnels[id]
      ensures id !in activeTunnels ==> tunnel.status == Idle && tunnel.port == 0
    {
      tunnel := if id in activeTunnels then activeTunnels[id] else Tunnel(Idle, 0, 0, false);
    }

    method UpdateLastActivity(id: EndpointId, now: int)
      modifies this
      ensures activeTunnels == Active(old(activeTunnels), id, now)
      ensures activeTunnels.Keys == old(activeTunnels).Keys
      ensures forall e :: e in activeTunnels && e != id ==> activeTunnels[e] == old(activeTunnels)[e]
      ensures id in activeTunnels ==>
                var (before, after) := (old(activeTunnels)[id], activeTunnels[id]);
                after.lastActivity == now && after.status == before.status && after.port == before.port && after.hasSnapshot == before.hasSnapshot
    {
      if id in activeTunnels {
        activeTunnels := activeTunnels[id := activeTunnels[id].(lastActivity := now)];
      }
    }

    method MarkSnapshotTaken(id: EndpointId)
      modifies this
      ensures activeTunnels == Marked(old(activeTunnels), id)
      ensures activeTunnels.Keys == old(activeTunnels).Keys
      ensures forall e :: e in activeTunnels && e != id ==> activeTunnels[e] == old(activeTunnels)[e]
      ensures id in activeTunnels ==>
                var (before, after) := (old(activeTunnels)[id], activeTunnels[id]);
                after.hasSnapshot && after.status == before.status && after.port == before.port && after.lastActivity == before.lastActivity
    {
      if id in activeTunnels {
        activeTunnels := activeTunnels[id := activeTunnels[id].(hasSnapshot := true)];
      }
    }

    /** The part of checkTunnels that holds the read lock. */
    method Scan(order: seq<EndpointId>, now: int) returns (d: Decision)
      requires forall i :: 0 <= i < |order| ==> order[i] in activeTunnels
      ensures d == Decide(activeTunnels, order, now)
    {
      var i := 0;
      while i < |order|
        invariant 0 <= i <= |order|
        invariant Decide(activeTunnels, order, now) == Decide(activeTunnels, order[i..], now)
      {
        var tunnel := activeTunnels[order[i]];
        var elapsed := now - tunnel.lastActivity;
        assert order[i..][1..] == order[i + 1..];
        if !tunnel.hasSnapshot && elapsed < ACTIVE_TIMEOUT {
          return First(order[i], tunnel.port);
        }
        if tunnel.status.Required? && elapsed < ACTIVE_TIMEOUT {
          i := i + 1;
          continue;
        }
        return Expired(order[i], tunnel.port);
      }
      d := Rest;
    }
  }

  // ----- all steps, interleaved

  /** Between two critical sections the check only remembers what it decided. */
  datatype State = State(table: Table, check: Decision)

  datatype Snapshot = Taken | NotFound | OtherError

  datatype Step =
    | OpenStep(e: Endpoint, draws: seq<Draw>, credentialsOk: bool, now: int)
    | CloseStep(id: EndpointId)
    | ActivityStep(id: EndpointId, now: int)
    | ScanStep(order: seq<EndpointId>, now: int)
    | SnapshotStep(outcome: Snapshot)   // the rest of the check, with what the snapshot came to

  ghost predicate Enabled(s: State, step: Step) {
    match step
    case OpenStep(_, draws, _, _) => forall i :: 0 <= i < |draws| ==> DrawOk(draws[i])
    case ScanStep(order, _) => s.check.Rest? && (forall i :: 0 <= i < |order| ==> order[i] in s.table) && forall e :: e in s.table ==> e in order
    case SnapshotStep(_) => !s.check.Rest?
    case _ => true
  }

  ghost function Apply(s: State, step: Step): State
    requires Enabled(s, step)
  {
    match step
    case OpenStep(e, draws, ok, now) => s.(table := Opening(s.table, e, draws, ok, now).0)
    case CloseStep(id) => s.(table := s.table - {id})
    case ActivityStep(id, now) => s.(table := Active(s.table, id, now))
    case ScanStep(order, now) => s.(check := Decide(s.table, order, now))
    case SnapshotStep(outcome) =>
      match s.check
      case First(id, _) =>
        State(if outcome.Taken? then Marked(s.table, id) else if outcome.NotFound? then s.table - {id} else s.table, Rest)
      case Expired(id, _) => State(s.table - {id}, Rest)
      case Rest => s
  }

  ghost function Run(steps: seq<Step>): Option<State> {
    if steps == [] then Some(State(map[], Rest))
    else
      var last := |steps| - 1;
      match Run(steps[..last])
      case None => None
      case Some(s) => if Enabled(s, steps[last]) then Some(Apply(s, steps[last])) else None
  }

  /** Active tunnels are required, on distinct ports of the dynamic range. */
  ghost predicate Inv(t: Table) {
    && (forall e :: e in t ==> t[e].status == Required && 49152 <= t[e].port < 65535)
    && (forall e, f :: e in t && f in t && e != f ==> t[e].port != t[f].port)
  }

  lemma {:induction false} UnusedPortIsFree(t: Table, draws: seq<Draw>)
    requires forall i :: 0 <= i < |draws| ==> DrawOk(draws[i])
    ensures UnusedPort(t, draws).Some? ==>
              !PortUsed(t, UnusedPort(t, draws).value)
              && MIN_AVAILABLE_PORT <= UnusedPort(t, draws).value < MAX_AVAILABLE_PORT
    ensures UnusedPort(t, draws).Some? <==>
              exists i :: 0 <= i < |draws| && !PortUsed(t, MIN_AVAILABLE_PORT + draws[i].value) && !draws[i].listening
  {
    if draws != [] {
      UnusedPortIsFree(t, draws[1..]);
      assert forall i :: 1 <= i < |draws| ==> draws[i] == draws[1..][i - 1];
    }
  }

  lemma OpeningKeepsInv(t: Table, e: Endpoint, draws: seq<Draw>, credentialsOk: bool, now: int)
    requires Inv(t) && forall i :: 0 <= i < |draws| ==> DrawOk(draws[i])
    ensures Inv(Opening(t, e, draws, credentialsOk, now).0)
  {
    UnusedPortIsFree(t, draws);
  }

  lemma StepKeepsInv(s: State, step: Step)
    requires Inv(s.table) && Enabled(s, step)
    ensures Inv(Apply(s, step).table)
  {
    if step.OpenStep? {
      OpeningKeepsInv(s.table, step.e, step.draws, step.credentialsOk, step.now);
    }
  }

  // ----- main results

  /** Whatever is interleaved, active tunnels are required and on distinct ports of the range. */
  lemma {:induction false} PortsAreDistinct(steps: seq<Step>)
    requires Run(steps).Some?
    ensures Inv(Run(steps).value.table)
  {
    if steps != [] {
      var last := |steps| - 1;
      PortsAreDistinct(steps[..last]);
      StepKeepsInv(Run(steps[..last]).value, steps[last]);
    }
  }

  /** Opening an endpoint that has a tunnel changes nothing, and opening any changes no other's. */
  lemma OpenIsIdempotent(t: Table, e: Endpoint, draws: seq<Draw>, credentialsOk: bool, now: int)
    ensures var (t', r) := Opening(t, e, draws, credentialsOk, now);
            && (e.id in t ==> t' == t)
            && (forall f :: f in t ==> f in t' && t'[f] == t[f])
            && (r.Opened? ==> e.id in t')
            && (t' != t ==> r.Opened? && t'.Keys == t.Keys + {e.id})
  {
  }

  /** The ports the tunnels of t are on. */
  ghost function Ports(t: Table): set<int> { set e | e in t :: t[e].port }

  lemma {:induction false} PortsSize(t: Table)
    requires forall e, f :: e in t && f in t && e != f ==> t[e].port != t[f].port
    ensures |Ports(t)| == |t|
  {
    if t != map[] {
      var e :| e in t;
      var rest := t - {e};
      PortsSize(rest);
      assert Ports(t) == Ports(rest) + {t[e].port} by {
        forall p | p in Ports(t) ensures p in Ports(rest) + {t[e].port} {
          var f :| f in t && t[f].port == p;
          assert f == e || f in rest;
        }
      }
      assert t[e].port !in Ports(rest);
      assert t.Keys == rest.Keys + {e};
      assert |t| == |t.Keys| && |rest| == |rest.Keys|;
    } else {
      assert Ports(t) == {};
    }
  }

  /** Some port of the range is unassigned iff there are fewer than 16383 tunnels. With that many,
      no draw will ever do. */
  lemma FreePortIffRoom(t: Table)
    requires Inv(t)
    ensures |t| <= 16383
    ensures (exists p :: MIN_AVAILABLE_PORT <= p < MAX_AVAILABLE_PORT && !PortUsed(t, p)) <==> |t| < 16383
  {
    var range := Range(MIN_AVAILABLE_PORT, MAX_AVAILABLE_PORT);
    PortsSize(t);
    RangeSize(MIN_AVAILABLE_PORT, MAX_AVAILABLE_PORT);
    assert Ports(t) <= range;
    SubsetSize(Ports(t), range);
    if |t| < 16383 {
      assert exists p :: p in range && p !in Ports(t) by {
        if forall p :: p in range ==> p in Ports(t) {
          SubsetSize(range, Ports(t));
        }
      }
      var p :| p in range && p !in Ports(t);
      assert !PortUsed(t, p);
    } else {
      forall p | MIN_AVAILABLE_PORT <= p < MAX_AVAILABLE_PORT ensures PortUsed(t, p) {
        assert p in Ports(t);
      }
    }
  }

  lemma FullTableNeverOpens(t: Table, e: Endpoint, draws: seq<Draw>, credentialsOk: bool, now: int)
    requires Inv(t) && |t| >= 16383 && e.id !in t && Refusal(e).None?
    requires forall i :: 0 <= i < |draws| ==> DrawOk(draws[i])
    ensures Opening(t, e, draws, credentialsOk, now) == (t, StillDrawing)
  {
    FreePortIffRoom(t);
    UnusedPortIsFree(t, draws);
  }

  /** Snapshotted, and used within the last four and a half minutes. */
  predicate NeedsNothing(tunnel: Tunnel, now: int) {
    tunnel.hasSnapshot && now - tunnel.lastActivity < 270_000_000_000
  }

  /** A check that rests has seen every tunnel snapshotted and active; one that acts on a tunnel
      acts for the reason it names. */
  lemma {:induction false} DecisionIsRight(t: Table, order: seq<EndpointId>, now: int)
    requires Inv(t) && forall i :: 0 <= i < |order| ==> order[i] in t
    ensures var d := Decide(t, order, now);
            && (d.Rest? <==> forall i :: 0 <= i < |order| ==> NeedsNothing(t[order[i]], now))
            && (!d.Rest? ==> d.id in t && d.port == t[d.id].port)
            && (d.First? ==> !t[d.id].hasSnapshot && now - t[d.id].lastActivity < 270_000_000_000)
            && (d.Expired? ==> now - t[d.id].lastActivity >= 270_000_000_000)
  {
    if order != [] {
      DecisionIsRight(t, order[1..], now);
      assert forall i :: 1 <= i < |order| ==> order[i] == order[1..][i - 1];
    }
  }

  ghost predicate FirstInOrder(t: Table, order: seq<EndpointId>, now: int, i: nat)
    requires forall i :: 0 <= i < |order| ==> order[i] in t
  {
    i < |order| && !NeedsNothing(t[order[i]], now) && forall j :: 0 <= j < i ==> NeedsNothing(t[order[j]], now)
  }

  /** It acts on the first of those, in the order visited, that need something. */
  lemma {:induction false} FirstIsServed(t: Table, order: seq<EndpointId>, now: int, i: nat)
    requires Inv(t) && (forall i :: 0 <= i < |order| ==> order[i] in t) && FirstInOrder(t, order, now, i)
    ensures !Decide(t, order, now).Rest? && Decide(t, order, now).id == order[i]
  {
    if i > 0 {
      var rest := order[1..];
      assert forall k :: 0 <= k < |rest| ==> rest[k] == order[k + 1];
      assert NeedsNothing(t[order[0]], now);
      FirstIsServed(t, rest, now, i - 1);
    }
  }

  /** The check's second half: a first snapshot is marked when taken, and its tunnel is closed when the
      endpoint is gone; an idle tunnel is closed whatever its snapshot comes to. No other tunnel changes. */
  lemma SnapshotStepDoes(s: State, outcome: Snapshot)
    requires !s.check.Rest?
    ensures var t, t', id := s.table, Apply(s, SnapshotStep(outcome)).table, s.check.id;
            && Apply(s, SnapshotStep(outcome)).check.Rest?
            && (forall e :: e != id ==> (e in t' <==> e in t) && (e in t ==> t'[e] == t[e]))
            && (id in t' <==> id in t && s.check.First? && !outcome.NotFound?)
            && (id in t' ==> t'[id].hasSnapshot == (t[id].hasSnapshot || outcome.Taken?)
                             && t'[id].(hasSnapshot := t[id].hasSnapshot) == t[id])
  {
  }

  // ----- who may open a tunnel, and on which port

  predicate Admitted(e: Endpoint) { e.isEdge && !e.asyncMode && e.id != 0 && |e.edgeId| > 0 && e.userTrusted }

  predicate Free(t: Table, d: Draw) {
    !d.listening && forall e :: e in t ==> t[e].port != 49152 + d.value
  }

  /** The port is the first of those drawn that is free. */
  lemma {:induction false} FirstFreeDraw(t: Table, draws: seq<Draw>)
    ensures UnusedPort(t, draws).None? <==> forall i :: 0 <= i < |draws| ==> !Free(t, draws[i])
    ensures UnusedPort(t, draws).Some? ==>
              exists i :: 0 <= i < |draws| && Free(t, draws[i]) && UnusedPort(t, draws).value == 49152 + draws[i].value
                          && forall j :: 0 <= j < i ==> !Free(t, draws[j])
  {
    if draws != [] {
      var rest := draws[1..];
      assert forall i :: 1 <= i < |draws| ==> draws[i] == rest[i - 1];
      FirstFreeDraw(t, rest);
      if Free(t, draws[0]) {
        assert !PortUsed(t, 49152 + draws[0].value);
      } else if UnusedPort(t, rest).Some? {
        var i :| 0 <= i < |rest| && Free(t, rest[i]) && UnusedPort(t, rest).value == 49152 + rest[i].value
                 && forall j :: 0 <= j < i ==> !Free(t, rest[j]);
        assert Free(t, draws[i + 1]);
      }
    }
  }

  /** Every outcome of opening, by its exact cause. */
  lemma OutcomesOfOpening(t: Table, e: Endpoint, draws: seq<Draw>, credentialsOk: bool, now: int)
    ensures var r := Opening(t, e, draws, credentialsOk, now).1;
            var found := exists i :: 0 <= i < |draws| && Free(t, draws[i]);
            && (r == ErrNonEdgeEnv <==> !e.isEdge)
            && (r == ErrAsyncEnv <==> e.isEdge && e.asyncMode)
            && (r == ErrInvalidEnv <==> e.isEdge && !e.asyncMode && !Admitted(e))
            && (r == StillDrawing <==> Admitted(e) && e.id !in t && !found)
            && (r == ErrCredentials <==> Admitted(e) && e.id !in t && found && !credentialsOk)
            && (r == Opened <==> Admitted(e) && (e.id in t || (found && credentialsOk)))
  {
    FirstFreeDraw(t, draws);
  }

  /** A tunnel that is opened is required, on the first free port drawn, used now, and not yet
      snapshotted, so that a check within four and a half minutes takes its first snapshot. */
  lemma TunnelOpened(t: Table, e: Endpoint, draws: seq<Draw>, credentialsOk: bool, now: int, later: int)
    requires e.id !in t && Opening(t, e, draws, credentialsOk, now).1.Opened?
    ensures exists i :: 0 <= i < |draws| && Free(t, draws[i]) && (forall j :: 0 <= j < i ==> !Free(t, draws[j]))
              && Opening(t, e, draws, credentialsOk, now).0 == t[e.id := Tunnel(Required, 49152 + draws[i].value, now, false)]
    ensures later - now < 270_000_000_000 ==>
              var tunnel := Opening(t, e, draws, credentialsOk, now).0[e.id];
              Judge(e.id, tunnel, later) == First(e.id, tunnel.port)
  {
    FirstFreeDraw(t, draws);
    var port := UnusedPort(t, draws).value;
    var i :| 0 <= i < |draws| && Free(t, draws[i]) && port == 49152 + draws[i].value && forall j :: 0 <= j < i ==> !Free(t, draws[j]);
    assert Free(t, draws[i]);
  }

  /** The tunnel of endpoint id was opened by the k-th step, for a trusted, synchronous edge endpoint, and
      not closed since; it has been snapshotted only if a snapshot was taken since. */
  ghost predicate OpenedAt(steps: seq<Step>, k: nat, id: EndpointId, tunnel: Tunnel) {
    && k < |steps| && steps[k].OpenStep? && steps[k].e.id == id && Admitted(steps[k].e) && steps[k].credentialsOk
    && (forall j :: k < j < |steps| ==> steps[j] != CloseStep(id))
    && (exists i :: 0 <= i < |steps[k].draws| && tunnel.port == 49152 + steps[k].draws[i].value && !steps[k].draws[i].listening)
    && (tunnel.hasSnapshot ==> exists j :: k < j < |steps| && steps[j] == SnapshotStep(Taken))
    && (tunnel.lastActivity == steps[k].now || exists j :: k < j < |steps| && steps[j] == ActivityStep(id, tunnel.lastActivity))
  }

  lemma StillOpenedAt(steps: seq<Step>, step: Step, k: nat, id: EndpointId, before: Tunnel, tunnel: Tunnel)
    requires OpenedAt(steps, k, id, before) && step != CloseStep(id) && tunnel.port == before.port
    requires tunnel.hasSnapshot ==> before.hasSnapshot || step == SnapshotStep(Taken)
    requires tunnel.lastActivity == before.lastActivity || step == ActivityStep(id, tunnel.lastActivity)
    ensures OpenedAt(steps + [step], k, id, tunnel)
  {
    var all := steps + [step];
    assert all[|steps|] == step && forall j :: 0 <= j < |steps| ==> all[j] == steps[j];
    assert all[k] == steps[k];
    if before.hasSnapshot {
      var j :| k < j < |steps| && steps[j] == SnapshotStep(Taken);
      assert all[j] == SnapshotStep(Taken);
    }
    if tunnel.lastActivity == before.lastActivity && tunnel.lastActivity != steps[k].now {
      var j :| k < j < |steps| && steps[j] == ActivityStep(id, tunnel.lastActivity);
      assert all[j] == ActivityStep(id, tunnel.lastActivity);
    }
  }

  lemma NewlyOpenedAt(steps: seq<Step>, step: Step, t: Table)
    requires step.OpenStep? && step.e.id !in t
    requires Opening(t, step.e, step.draws, step.credentialsOk, step.now).1.Opened?
    ensures OpenedAt(steps + [step], |steps|, step.e.id, Opening(t, step.e, step.draws, step.credentialsOk, step.now).0[step.e.id])
  {
    OutcomesOfOpening(t, step.e, step.draws, step.credentialsOk, step.now);
    TunnelOpened(t, step.e, step.draws, step.credentialsOk, step.now, step.now);
    assert (steps + [step])[|steps|] == step;
  }

  /** Over every run, a tunnel that is active was opened for an endpoint that may have one, and its
      record is what the steps since have made it. */
  lemma {:induction false} TunnelsWereOpened(steps: seq<Step>, id: EndpointId)
    requires Run(steps).Some? && id in Run(steps).value.table
    ensures exists k :: OpenedAt(steps, k, id, Run(steps).value.table[id])
  {
    if steps != [] {
      var last := |steps| - 1;
      var step, s := steps[last], Run(steps[..last]).value;
      var now := Apply(s, step).table;
      assert steps == steps[..last] + [step];
      if id in s.table {
        TunnelsWereOpened(steps[..last], id);
        var k :| OpenedAt(steps[..last], k, id, s.table[id]);
        StillOpenedAt(steps[..last], step, k, id, s.table[id], now[id]);
      } else {
        NewlyOpenedAt(steps[..last], step, s.table);
      }
    }
  }

  // ----- closing an idle tunnel

  /** The steps others take while the check, having decided, works on its snapshot. */
  ghost predicate During(s: State, steps: seq<Step>)
    decreases |steps|
  {
    steps == [] || (!steps[0].ScanStep? && !steps[0].SnapshotStep? && Enabled(s, steps[0]) && During(Apply(s, steps[0]), steps[1..]))
  }

  ghost function Later(s: State, steps: seq<Step>): State
    requires During(s, steps)
    decreases |steps|
  {
    if steps == [] then s else Later(Apply(s, steps[0]), steps[1..])
  }

  /** Whether endpoint id's tunnel, as it stands after the steps, was used or opened during them. */
  ghost predicate UsedDuring(s: State, steps: seq<Step>, id: EndpointId, used: bool)
    requires During(s, steps)
    decreases |steps|
  {
    if steps == [] then used
    else
      var s' := Apply(s, steps[0]);
      var used' := match steps[0]
        case OpenStep(e, _, _, _) => used || (e.id == id && id !in s.table && id in s'.table)
        case CloseStep(i) => used && i != id
        case ActivityStep(i, _) => used || (i == id && id in s.table)
        case _ => used;
      UsedDuring(s', steps[1..], id, used')
  }

  ghost predicate HappenAfter(steps: seq<Step>, time: int) {
    forall i :: 0 <= i < |steps| ==>
      (steps[i].OpenStep? ==> steps[i].now > time) && (steps[i].ActivityStep? ==> steps[i].now > time)
  }

  ghost predicate ActiveSince(t: Table, id: EndpointId, time: int) {
    id in t && t[id].lastActivity > time
  }

  /** A check that found endpoint id idle at `now` closes its tunnel in the end. What it closes is an
      active tunnel iff that tunnel was used or opened while the snapshot was taken. */
  lemma ClosesActiveIffUsed(s: State, steps: seq<Step>, now: int, outcome: Snapshot)
    requires s.check.Expired? && During(s, steps) && HappenAfter(steps, now - ACTIVE_TIMEOUT)
    requires s.check.id in s.table && now - s.table[s.check.id].lastActivity >= ACTIVE_TIMEOUT
    ensures var s' := Later(s, steps);
            && s'.check == s.check && s.check.id !in Apply(s', SnapshotStep(outcome)).table
            && (ActiveSince(s'.table, s.check.id, now - ACTIVE_TIMEOUT) <==> UsedDuring(s, steps, s.check.id, false))
  {
    UsedMeansActive(s, steps, s.check.id, now - ACTIVE_TIMEOUT, false);
  }

  lemma {:induction false} UsedMeansActive(s: State, steps: seq<Step>, id: EndpointId, time: int, used: bool)
    requires During(s, steps) && HappenAfter(steps, time) && (used <==> ActiveSince(s.table, id, time))
    ensures Later(s, steps).check == s.check
    ensures ActiveSince(Later(s, steps).table, id, time) <==> UsedDuring(s, steps, id, used)
    decreases |steps|
  {
    if steps != [] {
      var s' := Apply(s, steps[0]);
      var used' := match steps[0]
        case OpenStep(e, _, _, _) => used || (e.id == id && id !in s.table && id in s'.table)
        case CloseStep(i) => used && i != id
        case ActivityStep(i, _) => used || (i == id && id in s.table)
        case _ => used;
      assert forall i :: 0 <= i < |steps[1..]| ==> steps[1..][i] == steps[i + 1];
      UsedMeansActive(s', steps[1..], id, time, used');
    }
  }

  /** It does happen: here a tunnel is used, one nanosecond before the close, after the check has
      judged it idle. */
  lemma ActiveTunnelCanBeClosed()
    ensures var e := Endpoint(1, true, false, "edge", true);
            var steps := [OpenStep(e, [Draw(0, false)], true, 0), ScanStep([1], ACTIVE_TIMEOUT),
                          ActivityStep(1, ACTIVE_TIMEOUT + 1)];
            && Run(steps) == Some(State(map[1 := Tunnel(Required, MIN_AVAILABLE_PORT, ACTIVE_TIMEOUT + 1, false)],
                                        Expired(1, MIN_AVAILABLE_PORT)))
            && Apply(Run(steps).value, SnapshotStep(Taken)).table == map[]
  {
    var e := Endpoint(1, true, false, "edge", true);
    var a := OpenStep(e, [Draw(0, false)], true, 0);
    var b, c := ScanStep([1], ACTIVE_TIMEOUT), ActivityStep(1, ACTIVE_TIMEOUT + 1);
    var tunnel := Tunnel(Required, MIN_AVAILABLE_PORT, 0, false);
    assert [a, b, c][..2] == [a, b] && [a, b][..1] == [a] && [a][..0] == [];
    assert UnusedPort(map[], [Draw(0, false)]) == Some(MIN_AVAILABLE_PORT);
    assert Run([a]) == Some(State(map[1 := tunnel], Rest));
    assert Decide(map[1 := tunnel], [1], ACTIVE_TIMEOUT) == Expired(1, MIN_AVAILABLE_PORT);
    assert Run([a, b]) == Some(State(map[1 := tunnel], Expired(1, MIN_AVAILABLE_PORT)));
    var used := tunnel.(lastActivity := ACTIVE_TIMEOUT + 1);
    assert Active(map[1 := tunnel], 1, ACTIVE_TIMEOUT + 1) == map[1 := used];
    assert map[1 := used] - {1} == map[];
  }
}
