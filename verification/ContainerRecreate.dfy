/** Recreating a container (api/docker/container.go): nine daemon calls with two deferred
    compensations, run against a model of the Docker daemon. */
module ContainerRecreate {
  import opened Ranges
  import opened Wrappers

  type ContainerId = nat
  type NetworkId = nat

  datatype Endpoint = Endpoint(network: NetworkId, mac: string, aliases: seq<string>)

  datatype Container = Container(name: string, image: string, running: bool, networks: map<NetworkId, Endpoint>)

  /** What inspecting the container returned: its name, its image and its endpoints by network name. */
  datatype Inspection = Inspection(name: string, image: string, networks: map<string, Endpoint>)

  /** Where a container lands when it is created without a network. */
  const BRIDGE: NetworkId := 0
  const DEFAULT_ENDPOINT := Endpoint(BRIDGE, "", [])

  datatype Outcome =
    | NotStarted                        // an error up to and including the stop
    | RolledBack                        // an error after the stop
    | Panicked                          // the container's name has no slash
    | Recreated(id: ContainerId)
    | Unreported(id: ContainerId)       // recreated, but the last inspection failed

  ghost predicate NameUsed(containers: map<ContainerId, Container>, name: string) {
    exists i :: i in containers && containers[i].name == name
  }

  ghost predicate UniqueNames(containers: map<ContainerId, Container>) {
    forall i, j :: i in containers && j in containers && containers[i].name == containers[j].name ==> i == j
  }

  /** The container is as it was inspected. */
  ghost predicate Describes(view: Inspection, c: Container) {
    && view.name == c.name && view.image == c.image
    && (forall k :: k in view.networks ==> view.networks[k].network in c.networks && c.networks[view.networks[k].network] == view.networks[k])
    && (forall n :: n in c.networks ==> exists k :: k in view.networks && view.networks[k].network == n)
  }

  /** Different names are different networks. */
  ghost predicate Separate(view: Inspection) {
    forall k, l :: k in view.networks && l in view.networks && k != l ==> view.networks[k].network != view.networks[l].network
  }

  /** Nothing in the daemon's state stands in the way of a recreation: the name has a slash to be
      split at, and no other container has the name the original is set aside under. */
  ghost predicate Unobstructed(containers: map<ContainerId, Container>, view: Inspection) {
    '/' in view.name && Separate(view) && !NameUsed(containers, view.name + "-old")
  }

  /** An order in which a loop may visit the keys of m. */
  ghost predicate Visits(order: seq<string>, m: map<string, Endpoint>) {
    && (forall i :: 0 <= i < |order| ==> order[i] in m)
    && (forall i, j :: 0 <= i < j < |order| ==> order[i] != order[j])
    && (forall k :: k in m ==> k in order)
  }

  /** The same containers, all but id unchanged. */
  ghost predicate OnlyAt(before: map<ContainerId, Container>, now: map<ContainerId, Container>, id: ContainerId) {
    && id in before && now.Keys == before.Keys
    && forall i :: i in before && i != id ==> now[i] == before[i]
  }

  /** The daemon. A call it allows may still fail, without effect, unless `reliable`. */
  class Daemon {
    var containers: map<ContainerId, Container>

    method Stop(id: ContainerId, reliable: bool) returns (ok: bool)
      modifies this
      ensures ok ==> id in old(containers) && OnlyAt(old(containers), containers, id) && containers[id] == old(containers)[id].(running := false)
      ensures !ok ==> containers == old(containers)
      ensures reliable && id in old(containers) ==> ok
    {
      ok := *;
      ok := (ok || reliable) && id in containers;
      if ok {
        containers := containers[id := containers[id].(running := false)];
      }
    }

    method Start(id: ContainerId, reliable: bool) returns (ok: bool)
      modifies this
      ensures ok ==> id in old(containers) && OnlyAt(old(containers), containers, id) && containers[id] == old(containers)[id].(running := true)
      ensures !ok ==> containers == old(containers)
      ensures reliable && id in old(containers) ==> ok
    {
      ok := *;
      ok := (ok || reliable) && id in containers;
      if ok {
        containers := containers[id := containers[id].(running := true)];
      }
    }

    method Rename(id: ContainerId, name: string, reliable: bool) returns (ok: bool)
      modifies this
      ensures ok ==> id in old(containers) && !NameUsed(old(containers), name)
                     && OnlyAt(old(containers), containers, id) && containers[id] == old(containers)[id].(name := name)
      ensures !ok ==> containers == old(containers)
      ensures reliable && id in old(containers) && !NameUsed(old(containers), name) ==> ok
    {
      ok := *;
      ok := (ok || reliable) && id in containers && forall i | i in containers :: containers[i].name != name;
      if ok {
        containers := containers[id := containers[id].(name := name)];
      }
    }

    method Disconnect(network: NetworkId, id: ContainerId, reliable: bool) returns (ok: bool)
      modifies this
      ensures ok ==> id in old(containers) && network in old(containers)[id].networks
                     && OnlyAt(old(containers), containers, id) && containers[id] == old(containers)[id].(networks := old(containers)[id].networks - {network})
      ensures !ok ==> containers == old(containers)
      ensures reliable && id in old(containers) && network in old(containers)[id].networks ==> ok
    {
      ok := *;
      ok := (ok || reliable) && id in containers && network in containers[id].networks;
      if ok {
        containers := containers[id := containers[id].(networks := containers[id].networks - {network})];
      }
    }

    method Connect(endpoint: Endpoint, id: ContainerId, reliable: bool) returns (ok: bool)
      modifies this
      ensures ok ==> id in old(containers) && endpoint.network !in old(containers)[id].networks
                     && OnlyAt(old(containers), containers, id) && containers[id] == old(containers)[id].(networks := old(containers)[id].networks[endpoint.network := endpoint])
      ensures !ok ==> containers == old(containers)
      ensures reliable && id in old(containers) && endpoint.network !in old(containers)[id].networks ==> ok
    {
      ok := *;
      ok := (ok || reliable) && id in containers && endpoint.network !in containers[id].networks;
      if ok {
        containers := containers[id := containers[id].(networks := containers[id].networks[endpoint.network := endpoint])];
      }
    }

    /** A container is created on at most one network, and on the default one when none is given. */
    method Create(image: string, initial: Option<(string, Endpoint)>, name: string, reliable: bool) returns (ok: bool, id: ContainerId)
      modifies this
      ensures ok ==> id !in old(containers) && !NameUsed(old(containers), name)
                     && containers == old(containers)[id := Container(name, image, false, FirstNetwork(initial))]
      ensures !ok ==> containers == old(containers)
      ensures reliable && !NameUsed(old(containers), name) ==> ok
    {
      ok := *;
      id :| id !in containers by {
        FreshId(containers);
      }
      ok := (ok || reliable) && forall i | i in containers :: containers[i].name != name;
      if ok {
        containers := containers[id := Container(name, image, false, FirstNetwork(initial))];
      }
    }

    /** A running container is not removed. */
    method Remove(id: ContainerId, reliable: bool) returns (ok: bool)
      modifies this
      ensures ok ==> id in old(containers) && !old(containers)[id].running && containers == old(containers) - {id}
      ensures !ok ==> containers == old(containers)
      ensures reliable && id in old(containers) && !old(containers)[id].running ==> ok
    {
      ok := *;
      ok := (ok || reliable) && id in containers && !containers[id].running;
      if ok {
        containers := containers - {id};
      }
    }
  }

  lemma FreshId(containers: map<ContainerId, Container>)
    ensures exists id: ContainerId :: id !in containers
  {
    var ids: set<int> := containers.Keys;
    RangeSize(0, |ids| + 1);
    if Range(0, |ids| + 1) <= ids {
      SubsetSize(Range(0, |ids| + 1), ids);
    }
    var id :| id in Range(0, |ids| + 1) && id !in ids;
    assert id !in containers;
  }

  /** The endpoints a container is created with. */
  function FirstNetwork(initial: Option<(string, Endpoint)>): map<NetworkId, Endpoint> {
    match initial
    case None => map[BRIDGE := DEFAULT_ENDPOINT]
    case Some((_, e)) => map[e.network := e]
  }

  /** clearMacAddrs, applied below API version 1.44. */
  function Clear(e: Endpoint, oldApi: bool): Endpoint {
    if oldApi then e.(mac := "") else e
  }

  /** n's endpoint in nets is the original one. */
  ghost predicate Within(nets: map<NetworkId, Endpoint>, original: map<NetworkId, Endpoint>) {
    forall n :: n in nets ==> n in original && nets[n] == original[n]
  }

  /** Nothing is lost: the other containers are as before, and id still has its image and, where it
      is connected, its own endpoints. */
  ghost predicate Kept(before: map<ContainerId, Container>, now: map<ContainerId, Container>, id: ContainerId) {
    && (forall i :: i in before && i != id ==> i in now && now[i] == before[i])
    && id in before && id in now
    && now[id].image == before[id].image && Within(now[id].networks, before[id].networks)
  }

  /** The orders in which the loops over the network map run, one for each loop. */
  datatype Orders = Orders(disconnect: seq<string>, connect: seq<string>, restore: seq<string>) {
    ghost predicate Valid(m: map<string, Endpoint>) {
      Visits(disconnect, m) && Visits(connect, m) && Visits(restore, m)
    }
  }

  /** The first n networks of the order are among nets. */
  ghost predicate Joined(nets: map<NetworkId, Endpoint>, view: Inspection, order: seq<string>, n: nat) {
    n <= |order| && forall j :: 0 <= j < n ==> order[j] in view.networks && view.networks[order[j]].network in nets
  }

  lemma JoinedMore(nets: map<NetworkId, Endpoint>, nets': map<NetworkId, Endpoint>, view: Inspection, order: seq<string>, n: nat)
    requires n < |order| && order[n] in view.networks && nets.Keys <= nets'.Keys
    ensures Joined(nets, view, order, n) && view.networks[order[n]].network in nets' ==> Joined(nets', view, order, n + 1)
  {
  }

  lemma AllJoined(view: Inspection, original: Container, order: seq<string>)
    requires Describes(view, original) && Visits(order, view.networks)
    ensures Joined(original.networks, view, order, |order|)
  {
  }

  lemma AllReconnected(view: Inspection, original: Container, order: seq<string>, nets: map<NetworkId, Endpoint>)
    requires Describes(view, original) && Visits(order, view.networks) && Within(nets, original.networks)
    requires Joined(nets, view, order, |order|)
    ensures nets == original.networks
  {
    forall n | n in original.networks ensures n in nets {
      var k :| k in view.networks && view.networks[k].network == n;
      var j :| 0 <= j < |order| && order[j] == k;
    }
  }

  /** The reconnecting loop of the first compensation. */
  method Reconnect(d: Daemon, id: ContainerId, view: Inspection, order: seq<string>, reliable: bool, ghost original: Container)
    requires Describes(view, original) && Visits(order, view.networks)
    requires id in d.containers && Within(d.containers[id].networks, original.networks)
    modifies d
    ensures OnlyAt(old(d.containers), d.containers, id)
    ensures d.containers[id] == old(d.containers)[id].(networks := d.containers[id].networks)
    ensures Within(d.containers[id].networks, original.networks)
    ensures reliable ==> d.containers[id].networks == original.networks
  {
    for i := 0 to |order|
      invariant OnlyAt(old(d.containers), d.containers, id)
      invariant d.containers[id] == old(d.containers)[id].(networks := d.containers[id].networks)
      invariant Within(d.containers[id].networks, original.networks)
      invariant reliable ==> Joined(d.containers[id].networks, view, order, i)
    {
      ghost var joined := d.containers[id].networks;
      var _ := d.Connect(view.networks[order[i]], id, reliable);
      JoinedMore(joined, d.containers[id].networks, view, order, i);
    }
    if reliable {
      AllReconnected(view, original, order, d.containers[id].networks);
    }
  }

  /** The compensation armed by the stop: rename back, reconnect, start. */
  method Restore(d: Daemon, id: ContainerId, view: Inspection, order: seq<string>, reliable: bool,
                 ghost before: map<ContainerId, Container>)
    requires id in before && UniqueNames(before) && Describes(view, before[id]) && Visits(order, view.networks)
    requires Kept(before, d.containers, id) && (reliable ==> OnlyAt(before, d.containers, id))
    modifies d
    ensures Kept(before, d.containers, id)
    ensures reliable ==> OnlyAt(before, d.containers, id) && d.containers[id] == before[id].(running := true)
  {
    if reliable {
      NameIsFree(before, d.containers, id);
    }
    var _ := d.Rename(id, view.name, reliable);
    Reconnect(d, id, view, order, reliable, before[id]);
    var _ := d.Start(id, reliable);
  }

  /** Renaming back fails only when the container never lost its name. */
  lemma NameIsFree(before: map<ContainerId, Container>, now: map<ContainerId, Container>, id: ContainerId)
    requires UniqueNames(before) && OnlyAt(before, now, id)
    ensures NameUsed(now, before[id].name) <==> now[id].name == before[id].name
  {
  }

  /** The compensation armed by the creation: stop and remove the new container. */
  method Discard(d: Daemon, newId: ContainerId, reliable: bool)
    requires newId in d.containers
    modifies d
    ensures d.containers == old(d.containers) - {newId} || OnlyAt(old(d.containers), d.containers, newId)
    ensures reliable ==> d.containers == old(d.containers) - {newId}
  {
    var _ := d.Stop(newId, reliable);
    var removed := d.Remove(newId, reliable);
    assert removed ==> d.containers == old(d.containers) - {newId};
  }

  /** The first loop: leave every network, remembering the first one visited. */
  method DisconnectAll(d: Daemon, id: ContainerId, view: Inspection, order: seq<string>, healthy: bool)
    returns (ok: bool, first: Option<(string, Endpoint)>)
    requires Visits(order, view.networks)
    requires id in d.containers
    modifies d
    ensures OnlyAt(old(d.containers), d.containers, id)
    ensures d.containers[id] == old(d.containers)[id].(networks := d.containers[id].networks)
    ensures Within(d.containers[id].networks, old(d.containers)[id].networks)
    ensures ok ==> first == First(view, order)
    ensures ok ==> forall j :: 0 <= j < |order| ==> view.networks[order[j]].network !in d.containers[id].networks
    ensures healthy && Separate(view) && Joined(old(d.containers)[id].networks, view, order, |order|) ==> ok
    ensures ok ==> forall j, k :: 0 <= j < k < |order| ==> view.networks[order[j]].network != view.networks[order[k]].network
  {
    first := None;
    for i := 0 to |order|
      invariant OnlyAt(old(d.containers), d.containers, id)
      invariant d.containers[id] == old(d.containers)[id].(networks := d.containers[id].networks)
      invariant Within(d.containers[id].networks, old(d.containers)[id].networks)
      invariant forall j :: 0 <= j < i ==> view.networks[order[j]].network !in d.containers[id].networks
      invariant first == if i == 0 then None else First(view, order)
      invariant forall j, k :: 0 <= j < k < i ==> view.networks[order[j]].network != view.networks[order[k]].network
      invariant Separate(view) && Joined(old(d.containers)[id].networks, view, order, |order|) ==>
                  forall j :: i <= j < |order| ==> view.networks[order[j]].network in d.containers[id].networks
    {
      ok := d.Disconnect(view.networks[order[i]].network, id, healthy);
      if !ok {
        return;
      }
      if first.None? {
        first := Some((order[i], view.networks[order[i]]));
      }
    }
    ok := true;
  }

  function First(view: Inspection, order: seq<string>): Option<(string, Endpoint)>
    requires forall i :: 0 <= i < |order| ==> order[i] in view.networks
  {
    if order == [] then None else Some((order[0], view.networks[order[0]]))
  }

  lemma AllSeparate(view: Inspection, order: seq<string>)
    requires Visits(order, view.networks)
    requires forall j, k :: 0 <= j < k < |order| ==> view.networks[order[j]].network != view.networks[order[k]].network
    ensures Separate(view)
  {
  }

  lemma AllDisconnected(view: Inspection, original: Container, order: seq<string>, nets: map<NetworkId, Endpoint>)
    requires Describes(view, original) && Visits(order, view.networks) && Within(nets, original.networks)
    requires forall j :: 0 <= j < |order| ==> view.networks[order[j]].network !in nets
    ensures nets == map[]
  {
    forall n | n in original.networks ensures n !in nets {
      var k :| k in view.networks && view.networks[k].network == n;
      var j :| 0 <= j < |order| && order[j] == k;
    }
  }

  /** The endpoints of the new container once it is connected everywhere. */
  function NewNetworks(view: Inspection, order: seq<string>, original: map<NetworkId, Endpoint>, oldApi: bool): map<NetworkId, Endpoint>
    requires forall i :: 0 <= i < |order| ==> order[i] in view.networks
  {
    match First(view, order)
    case None => map[BRIDGE := DEFAULT_ENDPOINT]
    case Some((_, e)) => original[e.network := Clear(e, oldApi)]
  }

  /** The second loop: join the networks the new container was not created on. */
  method ConnectOthers(d: Daemon, newId: ContainerId, view: Inspection, order: seq<string>, first: Option<(string, Endpoint)>,
                       healthy: bool, ghost expected: map<NetworkId, Endpoint>)
    returns (ok: bool)
    requires Visits(order, view.networks)
    requires forall i :: 0 <= i < |order| ==> Expects(expected, view.networks[order[i]], first)
    requires newId in d.containers && Within(d.containers[newId].networks, expected)
    requires first.Some? ==> first.value.0 in view.networks && first.value.1 == view.networks[first.value.0]
                             && first.value.1.network in d.containers[newId].networks
    modifies d
    ensures OnlyAt(old(d.containers), d.containers, newId)
    ensures d.containers[newId] == old(d.containers)[newId].(networks := d.containers[newId].networks)
    ensures Within(d.containers[newId].networks, expected)
    ensures forall n :: n in old(d.containers)[newId].networks ==> n in d.containers[newId].networks
    ensures ok ==> forall j :: 0 <= j < |order| ==> view.networks[order[j]].network in d.containers[newId].networks
    ensures healthy && Separate(view) && NotYetJoined(old(d.containers)[newId].networks, view, order, 0, first) ==> ok
  {
    for i := 0 to |order|
      invariant OnlyAt(old(d.containers), d.containers, newId)
      invariant d.containers[newId] == old(d.containers)[newId].(networks := d.containers[newId].networks)
      invariant Within(d.containers[newId].networks, expected)
      invariant forall n :: n in old(d.containers)[newId].networks ==> n in d.containers[newId].networks
      invariant forall j :: 0 <= j < i ==> view.networks[order[j]].network in d.containers[newId].networks
      invariant Separate(view) && NotYetJoined(old(d.containers)[newId].networks, view, order, 0, first) ==>
                  NotYetJoined(d.containers[newId].networks, view, order, i, first)
    {
      if first.Some? && first.value.0 == order[i] {
        continue;
      }
      ok := d.Connect(view.networks[order[i]], newId, healthy);
      if !ok {
        return;
      }
    }
    ok := true;
  }

  /** None of the networks from position i on is among nets, but for the one created on. */
  ghost predicate NotYetJoined(nets: map<NetworkId, Endpoint>, view: Inspection, order: seq<string>, i: nat,
                               first: Option<(string, Endpoint)>) {
    forall j :: i <= j < |order| && !(first.Some? && first.value.0 == order[j]) ==>
      order[j] in view.networks && view.networks[order[j]].network !in nets
  }

  /** The endpoint is expected as it is, unless its network is the one created on. */
  ghost predicate Expects(expected: map<NetworkId, Endpoint>, e: Endpoint, first: Option<(string, Endpoint)>) {
    e.network in expected && (expected[e.network] == e || (first.Some? && first.value.1.network == e.network))
  }

  lemma AllConnected(view: Inspection, original: Container, order: seq<string>, disconnected: seq<string>, oldApi: bool,
                     nets: map<NetworkId, Endpoint>)
    requires Describes(view, original) && Visits(order, view.networks) && Visits(disconnected, view.networks)
    requires Within(nets, NewNetworks(view, disconnected, original.networks, oldApi))
    requires disconnected == [] ==> BRIDGE in nets
    requires disconnected != [] ==> view.networks[disconnected[0]].network in nets
    requires forall j :: 0 <= j < |order| ==> view.networks[order[j]].network in nets
    ensures nets == NewNetworks(view, disconnected, original.networks, oldApi)
  {
    forall n | n in NewNetworks(view, disconnected, original.networks, oldApi) ensures n in nets {
      if disconnected != [] {
        assert disconnected[0] in view.networks;
        assert n in original.networks;
        var k :| k in view.networks && view.networks[k].network == n;
        var j :| 0 <= j < |order| && order[j] == k;
      }
    }
  }

  /** The container that has been set aside: renamed, off every network, stopped. */
  predicate SetAside(c: Container, view: Inspection) {
    c == Container(view.name + "-old", view.image, false, map[])
  }

  /** The new container runs under the original's name; the original is gone, or set aside when its
      removal failed. */
  ghost predicate Success(before: map<ContainerId, Container>, now: map<ContainerId, Container>, id: ContainerId, newId: ContainerId,
                          view: Inspection, newImage: string, orders: Orders, oldApi: bool)
    requires orders.Valid(view.networks)
  {
    && id in before && newId !in before && newId in now
    && now[newId] == Container(view.name, newImage, true, NewNetworks(view, orders.disconnect, before[id].networks, oldApi))
    && (id in now ==> SetAside(now[id], view))
    && now.Keys - {id, newId} == before.Keys - {id}
  }

  /** The endpoint a container is created with. */
  function Initial(first: Option<(string, Endpoint)>, oldApi: bool): Option<(string, Endpoint)> {
    match first
    case None => None
    case Some((name, e)) => Some((name, Clear(e, oldApi)))
  }

  lemma NetworksAreExpected(view: Inspection, original: Container, order: seq<string>, oldApi: bool)
    requires Describes(view, original) && Visits(order, view.networks)
    ensures var expected := NewNetworks(view, order, original.networks, oldApi);
            && (forall k :: k in view.networks ==> Expects(expected, view.networks[k], First(view, order)))
            && Within(FirstNetwork(Initial(First(view, order), oldApi)), expected)
            && (Separate(view) ==> forall other :: Visits(other, view.networks) ==>
                 NotYetJoined(FirstNetwork(Initial(First(view, order), oldApi)), view, other, 0, First(view, order)))
  {
    if order == [] {
      assert view.networks == map[];
    }
  }

  /** Steps 7 and 8. */
  method Attach(d: Daemon, newId: ContainerId, view: Inspection, first: Option<(string, Endpoint)>, orders: Orders, oldApi: bool,
                healthy: bool, ghost original: Container)
    returns (ok: bool)
    requires newId in d.containers && Describes(view, original) && orders.Valid(view.networks)
    requires first == First(view, orders.disconnect)
    requires d.containers[newId].networks == FirstNetwork(Initial(first, oldApi))
    modifies d
    ensures OnlyAt(old(d.containers), d.containers, newId)
    ensures ok ==> d.containers[newId] == old(d.containers)[newId].(
                     running := true, networks := NewNetworks(view, orders.disconnect, original.networks, oldApi))
    ensures healthy && Separate(view) ==> ok
  {
    ghost var expected := NewNetworks(view, orders.disconnect, original.networks, oldApi);
    NetworksAreExpected(view, original, orders.disconnect, oldApi);
    ok := ConnectOthers(d, newId, view, orders.connect, first, healthy, expected);
    if ok {
      AllConnected(view, original, orders.connect, orders.disconnect, oldApi, d.containers[newId].networks);
      ok := d.Start(newId, healthy);
    }
  }

  /** Working on a container that was added leaves the ones it was added to alone. */
  lemma BesidesNew(was: map<ContainerId, Container>, now: map<ContainerId, Container>, newId: ContainerId, created: Container)
    requires newId !in was && OnlyAt(was[newId := created], now, newId)
    ensures now == was[newId := now[newId]] && now - {newId} == was
  {
  }

  /** Steps 6 to 8, with the compensation of the creation. */
  method Create(d: Daemon, view: Inspection, first: Option<(string, Endpoint)>, newImage: string, orders: Orders, oldApi: bool,
                healthy: bool, reliable: bool, ghost original: Container)
    returns (ok: bool, newId: ContainerId)
    requires Describes(view, original) && orders.Valid(view.networks) && first == First(view, orders.disconnect)
    modifies d
    ensures ok ==> newId !in old(d.containers) && d.containers == old(d.containers)[newId :=
                     Container(view.name, newImage, true, NewNetworks(view, orders.disconnect, original.networks, oldApi))]
    ensures healthy && Separate(view) && !NameUsed(old(d.containers), view.name) ==> ok
    ensures !ok && reliable ==> d.containers == old(d.containers)
    ensures forall i :: i in old(d.containers) ==> i in d.containers && d.containers[i] == old(d.containers)[i]
  {
    ghost var was := d.containers;
    ok, newId := d.Create(newImage, Initial(first, oldApi), view.name, healthy);
    if !ok {
      return;
    }
    ghost var created := d.containers[newId];
    ok := Attach(d, newId, view, first, orders, oldApi, healthy, original);
    BesidesNew(was, d.containers, newId, created);
    if !ok {
      Discard(d, newId, reliable);
    }
  }

  /** Steps 6 to 9. */
  method Substitute(d: Daemon, id: ContainerId, view: Inspection, first: Option<(string, Endpoint)>, newImage: string, orders: Orders,
                    oldApi: bool, healthy: bool, reliable: bool, reported: bool, ghost original: Container)
    returns (r: Outcome)
    requires id in d.containers && SetAside(d.containers[id], view) && Describes(view, original)
    requires orders.Valid(view.networks) && first == First(view, orders.disconnect)
    modifies d
    ensures r.RolledBack? || (if reported then r.Recreated? else r.Unreported?)
    ensures healthy && Separate(view) && !NameUsed(old(d.containers), view.name) ==> !r.RolledBack? && id !in d.containers
    ensures r.RolledBack? && reliable ==> d.containers == old(d.containers)
    ensures r.RolledBack? ==> forall i :: i in old(d.containers) ==> i in d.containers && d.containers[i] == old(d.containers)[i]
    ensures r.Recreated? || r.Unreported? ==>
              Success(old(d.containers)[id := original], d.containers, id, r.id, view, newImage, orders, oldApi)
    ensures forall i :: i in old(d.containers) && i != id ==> i in d.containers && d.containers[i] == old(d.containers)[i]
  {
    var ok, newId := Create(d, view, first, newImage, orders, oldApi, healthy, reliable, original);
    if !ok {
      return RolledBack;
    }
    var _ := d.Remove(id, healthy);
    r := if reported then Recreated(newId) else Unreported(newId);
  }

  /** Steps 3 to 5: the original is renamed and leaves its networks. */
  method PutAside(d: Daemon, id: ContainerId, view: Inspection, order: seq<string>, healthy: bool, ghost original: Container)
    returns (ok: bool, first: Option<(string, Endpoint)>)
    requires UniqueNames(d.containers)
    requires id in d.containers && d.containers[id] == original.(running := false) && Describes(view, original)
    requires Visits(order, view.networks)
    modifies d
    ensures OnlyAt(old(d.containers), d.containers, id)
    ensures d.containers[id].image == original.image && Within(d.containers[id].networks, original.networks)
    ensures ok ==> first == First(view, order) && SetAside(d.containers[id], view) && !NameUsed(d.containers, view.name)
    ensures ok ==> Separate(view) && !NameUsed(old(d.containers), view.name + "-old")
    ensures healthy && Separate(view) && !NameUsed(old(d.containers), view.name + "-old") ==> ok
  {
    first := None;
    ok := d.Rename(id, view.name + "-old", healthy);
    if ok {
      assert d.containers[id].name != view.name;
      AllJoined(view, original, order);
      ok, first := DisconnectAll(d, id, view, order, healthy);
      if ok {
        AllDisconnected(view, original, order, d.containers[id].networks);
        AllSeparate(view, order);
      }
    }
  }

  /** Steps 3 to 9: everything after the stop. */
  method Replace(d: Daemon, id: ContainerId, view: Inspection, newImage: string, orders: Orders, oldApi: bool,
                 healthy: bool, reliable: bool, reported: bool, ghost original: Container)
    returns (r: Outcome)
    requires UniqueNames(d.containers)
    requires id in d.containers && d.containers[id] == original.(running := false) && Describes(view, original)
    requires orders.Valid(view.networks)
    modifies d
    ensures r.RolledBack? || r.Panicked? || (if reported then r.Recreated? else r.Unreported?)
    ensures r.Recreated? || r.Unreported? ==> Unobstructed(old(d.containers), view)
    ensures healthy && Unobstructed(old(d.containers), view) ==> (r.Recreated? || r.Unreported?) && id !in d.containers
    ensures r.RolledBack? || r.Panicked? ==> Kept(old(d.containers), d.containers, id)
    ensures reliable && (r.RolledBack? || r.Panicked?) ==> OnlyAt(old(d.containers), d.containers, id)
    ensures r.Panicked? ==> '/' !in view.name
    ensures healthy && '/' !in view.name && Separate(view) && !NameUsed(old(d.containers), view.name + "-old") ==> r.Panicked?
    ensures r.Recreated? || r.Unreported? ==>
              Success(old(d.containers)[id := original], d.containers, id, r.id, view, newImage, orders, oldApi)
    ensures forall i :: i in old(d.containers) && i != id ==> i in d.containers && d.containers[i] == old(d.containers)[i]
  {
    var ok, first := PutAside(d, id, view, orders.disconnect, healthy, original);
    if !ok {
      return RolledBack;
    }
    if '/' !in view.name {
      return Panicked;
    }
    r := Substitute(d, id, view, first, newImage, orders, oldApi, healthy, reliable, reported, original);
  }

  /** Recreate. `prepared` and `reported` are what everything before the stop and the last inspection
      come to. `healthy` is the assumption that a forward call takes effect whenever the daemon
      allows it, and `reliable` the same of a compensating one; otherwise a call may fail at any time. */
  method Recreate(d: Daemon, id: ContainerId, view: Inspection, newImage: string, orders: Orders, oldApi: bool,
                  prepared: bool, healthy: bool, reliable: bool, reported: bool)
    returns (r: Outcome)
    requires id in d.containers && Describes(view, d.containers[id]) && UniqueNames(d.containers)
    requires orders.Valid(view.networks)
    modifies d
    ensures r.NotStarted? ==> d.containers == old(d.containers)
    ensures !prepared ==> r.NotStarted?
    ensures r.Recreated? ==> reported
    ensures r.Unreported? ==> !reported
    ensures r.Recreated? || r.Unreported? ==> Unobstructed(old(d.containers), view)
    ensures prepared && healthy && Unobstructed(old(d.containers), view) ==>
              (r.Recreated? || r.Unreported?) && id !in d.containers
    ensures reliable && (r.RolledBack? || r.Panicked?) ==>
              d.containers == old(d.containers)[id := old(d.containers)[id].(running := true)]
    ensures r.Panicked? ==> '/' !in view.name
    ensures prepared && healthy && '/' !in view.name && Separate(view) && !NameUsed(old(d.containers), view.name + "-old") ==> r.Panicked?
    ensures r.Recreated? || r.Unreported? ==>
              Success(old(d.containers), d.containers, id, r.id, view, newImage, orders, oldApi)
    ensures forall i :: i in old(d.containers) && i != id ==> i in d.containers && d.containers[i] == old(d.containers)[i]
    ensures r.RolledBack? || r.Panicked? ==> Kept(old(d.containers), d.containers, id)
  {
    if !prepared {
      return NotStarted;
    }
    var ok := d.Stop(id, healthy);
    if !ok {
      return NotStarted;
    }
    r := Replace(d, id, view, newImage, orders, oldApi, healthy, reliable, reported, old(d.containers)[id]);
    if r.RolledBack? || r.Panicked? {
      Restore(d, id, view, orders.restore, reliable, old(d.containers));
    }
  }

  // ----- main results about the new container

  /** What success means for the containers one by one: a new one runs the new image under the original's
      name, the original is gone or is stopped and off every network under its other name, and there is no
      further change in which containers there are. */
  lemma SuccessMeans(before: map<ContainerId, Container>, now: map<ContainerId, Container>, id: ContainerId, newId: ContainerId,
                     view: Inspection, newImage: string, orders: Orders, oldApi: bool)
    requires orders.Valid(view.networks) && Success(before, now, id, newId, view, newImage, orders, oldApi)
    ensures newId !in before && newId in now
    ensures now[newId].name == view.name && now[newId].image == newImage && now[newId].running
    ensures id in now ==> now[id].name == view.name + "-old" && now[id].image == view.image && !now[id].running && now[id].networks == map[]
    ensures forall i :: i != id && i != newId ==> (i in now <==> i in before)
  {
    forall i | i != id && i != newId ensures i in now <==> i in before {
      assert i in now.Keys - {id, newId} <==> i in now;
      assert i in before.Keys - {id} <==> i in before;
    }
  }

  /** Unless the API is old, a recreated container has exactly the original's endpoints iff the
      original had any. An old API clears the MAC address of the one endpoint the container is created
      with, that of the first network left, and changes nothing else of it and no other endpoint. */
  lemma SameNetworks(view: Inspection, order: seq<string>, original: Container, oldApi: bool)
    requires Describes(view, original) && Visits(order, view.networks)
    ensures var nets := NewNetworks(view, order, original.networks, oldApi);
            && (nets.Keys == original.networks.Keys <==> view.networks != map[])
            && (view.networks != map[] && !oldApi ==> nets == original.networks)
            && (order != [] ==>
                  var first := view.networks[order[0]].network;
                  && (forall n :: n in original.networks && n != first ==> nets[n] == original.networks[n])
                  && (oldApi ==> nets[first].mac == "" && nets[first].network == original.networks[first].network
                                 && nets[first].aliases == original.networks[first].aliases))
  {
    if order == [] {
      assert view.networks == map[];
      assert original.networks == map[];
      assert BRIDGE in NewNetworks(view, order, original.networks, oldApi);
    } else {
      assert order[0] in view.networks;
    }
  }

  /** A container on no network is recreated on the default bridge. */
  lemma LoneContainerIsBridged(name: string, image: string)
    ensures var (view, original) := (Inspection(name, image, map[]), Container(name, image, true, map[]));
            Describes(view, original) && Visits([], map[]) && NewNetworks(view, [], map[], false) == map[BRIDGE := DEFAULT_ENDPOINT]
  {
  }
}
