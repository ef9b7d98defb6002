/**
 The reconciler of power-only Ironic nodes: it reads the node and port inventory, checks everything it can before
 the first write, and then creates or updates one node and its declared ports.
*/
module IronicNode {
  import opened Common
  import opened Text

  datatype Node = Node(
    id: nat, name: string, driver: string, driverInfo: map<string, string>,
    networkInterface: string, extra: map<string, string>, state: string)

  /** The owner is the id of a node, or None for a port that belongs to no node. */
  datatype Port = Port(id: nat, address: string, owner: Option<nat>, physicalNetwork: Option<string>)

  /** The inventory of one Ironic; ids from nextId on are unused. */
  datatype Store = Store(nodes: seq<Node>, ports: seq<Port>, nextId: nat)

  datatype PortSpec = PortSpec(address: string, physicalNetwork: Option<string>)

  datatype Spec = Spec(name: string, novaHostname: string, driver: string, driverInfo: map<string, string>,
                       ports: seq<PortSpec>)

  datatype Error =
    | MissingName | BadDriver | BadInterface | BadProvisionState | MissingDriverInfo(key: string)
    | InvalidMac(mac: string) | DuplicateMac(mac: string)
    | AmbiguousNode | AmbiguousPort(mac: string) | ForeignPort(mac: string) | ForbiddenState(state: string)

  datatype Report = Report(
    changed: bool, nodeId: Option<nat>, provisionState: string, portsChanged: nat, extraPorts: multiset<string>)

  // ---------------------------------------------------------------- the inventory

  /** The ports whose address is the given one, up to letter case. */
  function Matching(ports: seq<Port>, address: string): seq<Port> {
    if ports == [] then []
    else Matching(ports[..|ports| - 1], address) +
         if Lower(ports[|ports| - 1].address) == address then [ports[|ports| - 1]] else []
  }

  function Named(nodes: seq<Node>, name: string): seq<Node> {
    if nodes == [] then []
    else Named(nodes[..|nodes| - 1], name) + if nodes[|nodes| - 1].name == name then [nodes[|nodes| - 1]] else []
  }

  /** Updates address their object by id. */
  function SetNetwork(ports: seq<Port>, id: nat, network: Option<string>): (r: seq<Port>)
    ensures |r| == |ports|
    ensures forall i :: 0 <= i < |ports| ==>
              r[i] == if ports[i].id == id then ports[i].(physicalNetwork := network) else ports[i]
  {
    seq(|ports|, i requires 0 <= i < |ports| =>
      if ports[i].id == id then ports[i].(physicalNetwork := network) else ports[i])
  }

  function SetNode(nodes: seq<Node>, node: Node): (r: seq<Node>)
    ensures |r| == |nodes|
    ensures forall i :: 0 <= i < |nodes| ==> r[i] == if nodes[i].id == node.id then node else nodes[i]
  {
    seq(|nodes|, i requires 0 <= i < |nodes| => if nodes[i].id == node.id then node else nodes[i])
  }

  ghost predicate ValidNodeList(nodes: seq<Node>, nextId: nat) {
    && (forall i, j :: 0 <= i < j < |nodes| ==> nodes[i].id != nodes[j].id)
    && (forall i :: 0 <= i < |nodes| ==> nodes[i].id < nextId)
  }

  ghost predicate ValidPortList(ports: seq<Port>, nextId: nat) {
    && (forall i, j :: 0 <= i < j < |ports| ==> ports[i].id != ports[j].id)
    && (forall i :: 0 <= i < |ports| ==> ports[i].id < nextId)
    && (forall i :: 0 <= i < |ports| && ports[i].owner.Some? ==> ports[i].owner.value < nextId)
  }

  /** Ids are unique, and fresh ones really are. */
  ghost predicate ValidStore(s: Store) {
    ValidNodeList(s.nodes, s.nextId) && ValidPortList(s.ports, s.nextId)
  }

  /** The addresses of a normalized specification are lower-case and distinct. */
  ghost predicate ValidPorts(desired: seq<PortSpec>) {
    && (forall i, j :: 0 <= i < j < |desired| ==> desired[i].address != desired[j].address)
    && (forall i :: 0 <= i < |desired| ==> Lower(desired[i].address) == desired[i].address)
  }

  class Baremetal {
    var nodes: seq<Node>
    var ports: seq<Port>
    var nextId: nat

    constructor (s: Store)
      ensures State() == s
    {
      nodes, ports, nextId := s.nodes, s.ports, s.nextId;
    }

    function State(): Store
      reads this
    {
      Store(nodes, ports, nextId)
    }

    /** A new node starts in the state enroll. */
    method CreateNode(name: string, driver: string, driverInfo: map<string, string>, extra: map<string, string>)
      returns (node: Node)
      modifies this
      ensures node == Node(old(nextId), name, driver, driverInfo, "noop", extra, "enroll")
      ensures State() == Store(old(nodes) + [node], old(ports), old(nextId) + 1)
    {
      node := Node(nextId, name, driver, driverInfo, "noop", extra, "enroll");
      nodes := nodes + [node];
      nextId := nextId + 1;
    }

    method UpdateNode(node: Node)
      modifies this`nodes
      ensures nodes == SetNode(old(nodes), node)
    {
      nodes := SetNode(nodes, node);
    }

    method CreatePort(nodeId: nat, address: string, network: Option<string>)
      modifies this`ports, this`nextId
      ensures ports == old(ports) + [Port(old(nextId), address, Some(nodeId), network)] && nextId == old(nextId) + 1
    {
      ports := ports + [Port(nextId, address, Some(nodeId), network)];
      nextId := nextId + 1;
    }

    method UpdatePort(port: Port, network: Option<string>)
      modifies this`ports
      ensures ports == SetNetwork(old(ports), port.id, network)
    {
      ports := SetNetwork(ports, port.id, network);
    }
  }

  // ---------------------------------------------------------------- ports

  /** Why a desired port cannot be reconciled when its owner has to be the given one. */
  function PortError(all: seq<Port>, d: PortSpec, expected: Option<nat>): Option<Error> {
    var m := Matching(all, d.address);
    if |m| > 1 then Some(AmbiguousPort(d.address))
    else if |m| == 1 && m[0].owner != expected then Some(ForeignPort(d.address))
    else None
  }

  /** The first such reason. */
  function Preflight(all: seq<Port>, desired: seq<PortSpec>, expected: Option<nat>): Option<Error> {
    if desired == [] then None
    else if PortError(all, desired[0], expected).Some? then PortError(all, desired[0], expected)
    else Preflight(all, desired[1..], expected)
  }

  /** A desired port needs a write when there is none, or when its network is another one. */
  predicate NeedsWrite(all: seq<Port>, d: PortSpec) {
    var m := Matching(all, d.address);
    m == [] || m[0].physicalNetwork != d.physicalNetwork
  }

  /** The write, decided from the snapshot `all` and carried out on the store as it is by then. */
  function WritePort(all: seq<Port>, nodeId: nat, d: PortSpec, s: Store): Store {
    var m := Matching(all, d.address);
    if m == [] then
      s.(ports := s.ports + [Port(s.nextId, d.address, Some(nodeId), d.physicalNetwork)], nextId := s.nextId + 1)
    else if m[0].physicalNetwork != d.physicalNetwork then
      s.(ports := SetNetwork(s.ports, m[0].id, d.physicalNetwork))
    else s
  }

  datatype PortsRun = PortsRun(store: Store, result: Result<nat, Error>)

  function RunPorts(all: seq<Port>, nodeId: nat, desired: seq<PortSpec>, s: Store, check: bool): PortsRun {
    if desired == [] then PortsRun(s, Ok(0))
    else match PortError(all, desired[0], Some(nodeId))
      case Some(e) => PortsRun(s, Err(e))
      case None =>
        var s' := if check then s else WritePort(all, nodeId, desired[0], s);
        var rest := RunPorts(all, nodeId, desired[1..], s', check);
        AddChanges(rest, if NeedsWrite(all, desired[0]) then 1 else 0)
  }

  function AddChanges(run: PortsRun, n: nat): PortsRun {
    if run.result.Ok? then PortsRun(run.store, Ok(run.result.value + n)) else run
  }

  function Addresses(desired: seq<PortSpec>): set<string> {
    set d | d in desired :: d.address
  }

  /** The node's ports that nobody asked for; they are reported and kept. */
  function Extras(all: seq<Port>, nodeId: nat, desired: set<string>): multiset<string> {
    if all == [] then multiset{}
    else
      var p := all[|all| - 1];
      Extras(all[..|all| - 1], nodeId, desired) +
      if p.owner == Some(nodeId) && Lower(p.address) !in desired then multiset{Lower(p.address)} else multiset{}
  }

  /** One round of the port loop. */
  lemma RunPortsStep(all: seq<Port>, nodeId: nat, desired: seq<PortSpec>, k: nat, s: Store, check: bool, count: nat)
    requires k < |desired| && PortError(all, desired[k], Some(nodeId)).None?
    ensures var s' := if check then s else WritePort(all, nodeId, desired[k], s);
            AddChanges(RunPorts(all, nodeId, desired[k..], s, check), count) ==
            AddChanges(RunPorts(all, nodeId, desired[k + 1..], s', check),
                       count + if NeedsWrite(all, desired[k]) then 1 else 0)
  {
    assert desired[k..][1..] == desired[k + 1..];
  }

  method PreflightPortOwnership(api: Baremetal, desired: seq<PortSpec>, expected: Option<nat>)
    returns (e: Option<Error>)
    ensures e == Preflight(api.ports, desired, expected)
  {
    var all := api.ports;
    for k := 0 to |desired|
      invariant Preflight(all, desired[k..], expected) == Preflight(all, desired, expected)
    {
      assert desired[k..][1..] == desired[k + 1..];
      var m := Matching(all, desired[k].address);
      if |m| > 1 {
        return Some(AmbiguousPort(desired[k].address));
      }
      if m != [] && m[0].owner != expected {
        return Some(ForeignPort(desired[k].address));
      }
    }
    e := None;
  }

  /** Works from its own snapshot while it writes to the store. */
  method ReconcilePorts(api: Baremetal, nodeId: nat, desired: seq<PortSpec>, check: bool)
    returns (changed: Result<nat, Error>, extras: multiset<string>)
    modifies api`ports, api`nextId
    ensures PortsRun(api.State(), changed) == RunPorts(old(api.ports), nodeId, desired, old(api.State()), check)
    ensures changed.Ok? ==> extras == Extras(old(api.ports), nodeId, Addresses(desired))
  {
    hide Matching, Lower, SetNetwork, Extras;
    var all := api.ports;
    ghost var run := RunPorts(all, nodeId, desired, api.State(), check);
    var count := 0;
    extras := multiset{};
    for k := 0 to |desired|
      invariant AddChanges(RunPorts(all, nodeId, desired[k..], api.State(), check), count) == run
      invariant api.nodes == old(api.nodes)
    {
      var d := desired[k];
      var m := Matching(all, d.address);
      if |m| > 1 {
        return Err(AmbiguousPort(d.address)), extras;
      }
      if m != [] && m[0].owner != Some(nodeId) {
        return Err(ForeignPort(d.address)), extras;
      }
      RunPortsStep(all, nodeId, desired, k, api.State(), check, count);
      if m == [] {
        count := count + 1;
        if !check {
          api.CreatePort(nodeId, d.address, d.physicalNetwork);
        }
      } else if m[0].physicalNetwork != d.physicalNetwork {
        count := count + 1;
        if !check {
          api.UpdatePort(m[0], d.physicalNetwork);
        }
      }
    }
    changed := Ok(count);
    extras := Extras(all, nodeId, Addresses(desired));
  }

  // ---------------------------------------------------------------- the node

  /** The node with everything the specification asks for; other driver fields and extras stay. */
  function Configured(node: Node, spec: Spec): Node {
    node.(driver := spec.driver, networkInterface := "noop", driverInfo := node.driverInfo + spec.driverInfo,
          extra := node.extra["nova_hostname" := spec.novaHostname])
  }

  function Manageable(node: Node): Node {
    node.(state := "manageable")
  }

  predicate IsManaged(node: Node, spec: Spec) {
    && node.driver == spec.driver && node.networkInterface == "noop" && node.state == "manageable"
    && (forall k :: k in spec.driverInfo ==> k in node.driverInfo && node.driverInfo[k] == spec.driverInfo[k])
    && "nova_hostname" in node.extra && node.extra["nova_hostname"] == spec.novaHostname
  }

  datatype Run = Run(store: Store, result: Result<Report, Error>)

  /** The reconciliation of a node that exists, after all checks before the first write have passed. */
  function ReconcileExisting(s: Store, node: Node, spec: Spec, check: bool, created: bool): Run {
    if node.state != "enroll" && node.state != "manageable" then Run(s, Err(ForbiddenState(node.state)))
    else
      var final := Manageable(Configured(node, spec));
      var s' := if check || final == node then s else s.(nodes := SetNode(s.nodes, final));
      var ports := RunPorts(s.ports, node.id, spec.ports, s', check);
      match ports.result
      case Err(e) => Run(ports.store, Err(e))
      case Ok(n) => Run(ports.store, Ok(Report(
          created || final != node || n > 0, Some(node.id), if check then node.state else "manageable",
          n, Extras(s.ports, node.id, Addresses(spec.ports)))))
  }

  function NewNode(id: nat, spec: Spec): Node {
    Node(id, spec.name, spec.driver, spec.driverInfo, "noop", map["nova_hostname" := spec.novaHostname], "enroll")
  }

  function Reconcile(s: Store, spec: Spec, check: bool): Run {
    var m := Named(s.nodes, spec.name);
    if |m| > 1 then Run(s, Err(AmbiguousNode))
    else match Preflight(s.ports, spec.ports, if m == [] then None else Some(m[0].id))
      case Some(e) => Run(s, Err(e))
      case None =>
        if m != [] then ReconcileExisting(s, m[0], spec, check, false)
        else if check then Run(s, Ok(Report(true, None, "absent", |spec.ports|, multiset{})))
        else
          var node := NewNode(s.nextId, spec);
          ReconcileExisting(Store(s.nodes + [node], s.ports, s.nextId + 1), node, spec, false, true)
  }

  /** Brings the node's own fields in line, one field at a time and only where it differs, and makes it manageable. */
  method ConfigureNode(api: Baremetal, node: Node, spec: Spec, check: bool) returns (final: Node, changed: bool)
    requires node.state == "enroll" || node.state == "manageable"
    modifies api`nodes
    ensures changed == (Manageable(Configured(node, spec)) != node)
    ensures final == if check then node else Manageable(Configured(node, spec))
    ensures api.nodes == if final == node then old(api.nodes) else SetNode(old(api.nodes), final)
  {
    hide SetNode;
    final, changed := node, false;
    var updated := node;
    if node.driver != spec.driver {
      updated := updated.(driver := spec.driver);
    }
    if node.networkInterface != "noop" {
      updated := updated.(networkInterface := "noop");
    }
    if exists k :: k in spec.driverInfo && (k !in node.driverInfo || node.driverInfo[k] != spec.driverInfo[k]) {
      updated := updated.(driverInfo := node.driverInfo + spec.driverInfo);
    }
    if "nova_hostname" !in node.extra || node.extra["nova_hostname"] != spec.novaHostname {
      updated := updated.(extra := node.extra["nova_hostname" := spec.novaHostname]);
    }
    ConfiguredFieldByField(node, spec, updated);
    if updated != node {
      changed := true;
      if !check {
        api.UpdateNode(updated);
        final := updated;
      }
    }
    if node.state == "enroll" {
      changed := true;
      if !check {
        final := Manageable(final);
        api.UpdateNode(final);
        SetNodeTwice(old(api.nodes), updated, final);
      }
    }
  }

  method ReconcileNode(api: Baremetal, spec: Spec, check: bool) returns (r: Result<Report, Error>)
    modifies api
    ensures Run(api.State(), r) == Reconcile(old(api.State()), spec, check)
  {
    var matches := Named(api.nodes, spec.name);
    if |matches| > 1 {
      return Err(AmbiguousNode);
    }
    var created := matches == [];
    var e := PreflightPortOwnership(api, spec.ports, if created then None else Some(matches[0].id));
    if e.Some? {
      return Err(e.value);
    }
    if created && check {
      return Ok(Report(true, None, "absent", |spec.ports|, multiset{}));
    }
    var node;
    if created {
      node := api.CreateNode(spec.name, spec.driver, spec.driverInfo, map["nova_hostname" := spec.novaHostname]);
    } else {
      node := matches[0];
    }
    r := ReconcileExistingNode(api, node, spec, check, created);
  }

  /** The part of the reconciliation that runs once the node is known. */
  method ReconcileExistingNode(api: Baremetal, node: Node, spec: Spec, check: bool, created: bool)
    returns (r: Result<Report, Error>)
    modifies api
    ensures Run(api.State(), r) == ReconcileExisting(old(api.State()), node, spec, check, created)
  {
    if node.state != "enroll" && node.state != "manageable" {
      return Err(ForbiddenState(node.state));
    }
    var final, configured := ConfigureNode(api, node, spec, check);
    var ports, extras := ReconcilePorts(api, final.id, spec.ports, check);
    if ports.Err? {
      return Err(ports.error);
    }
    var changed := created || configured || ports.value > 0;
    r := Ok(Report(changed, Some(final.id), final.state, ports.value, extras));
  }

  lemma SetNodeTwice(nodes: seq<Node>, a: Node, b: Node)
    requires a.id == b.id
    ensures SetNode(SetNode(nodes, a), b) == SetNode(nodes, b)
  {
  }

  lemma ConfiguredFieldByField(node: Node, spec: Spec, updated: Node)
    requires updated.networkInterface == "noop" && updated.driver == spec.driver
    requires updated.id == node.id && updated.name == node.name && updated.state == node.state
    requires updated.driverInfo ==
             if exists k :: k in spec.driverInfo && (k !in node.driverInfo || node.driverInfo[k] != spec.driverInfo[k])
             then node.driverInfo + spec.driverInfo else node.driverInfo
    requires updated.extra ==
             if "nova_hostname" !in node.extra || node.extra["nova_hostname"] != spec.novaHostname
             then node.extra["nova_hostname" := spec.novaHostname] else node.extra
    ensures updated == Configured(node, spec)
  {
    assert updated.driverInfo == node.driverInfo + spec.driverInfo;
    assert updated.extra == node.extra["nova_hostname" := spec.novaHostname];
  }
}
