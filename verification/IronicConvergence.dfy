/** What the node reconciler guarantees, for every inventory and every specification. */
module IronicConvergence {
  import opened Common
  import opened IronicNode
  import opened Text

  // ---------------------------------------------------------------- how writes show up in searches

  lemma MatchingSnoc(ports: seq<Port>, p: Port, address: string)
    ensures Matching(ports + [p], address) == Matching(ports, address) + if Lower(p.address) == address then [p] else []
  {
    assert (ports + [p])[..|ports|] == ports;
  }

  lemma NamedSnoc(nodes: seq<Node>, n: Node, name: string)
    ensures Named(nodes + [n], name) == Named(nodes, name) + if n.name == name then [n] else []
  {
    assert (nodes + [n])[..|nodes|] == nodes;
  }

  lemma {:induction false} FoundPort(ports: seq<Port>, address: string, k: nat)
    requires k < |Matching(ports, address)|
    ensures Matching(ports, address)[k] in ports && Lower(Matching(ports, address)[k].address) == address
  {
    if k < |Matching(ports[..|ports| - 1], address)| {
      FoundPort(ports[..|ports| - 1], address, k);
    }
  }

  lemma {:induction false} FoundNode(nodes: seq<Node>, name: string, k: nat)
    requires k < |Named(nodes, name)|
    ensures Named(nodes, name)[k] in nodes && Named(nodes, name)[k].name == name
  {
    if k < |Named(nodes[..|nodes| - 1], name)| {
      FoundNode(nodes[..|nodes| - 1], name, k);
    }
  }

  /** A network update changes the found port with that id and no other. */
  lemma {:induction false} MatchingAfterSet(ports: seq<Port>, id: nat, network: Option<string>, address: string)
    ensures |Matching(SetNetwork(ports, id, network), address)| == |Matching(ports, address)|
    ensures forall k :: 0 <= k < |Matching(ports, address)| ==>
              Matching(SetNetwork(ports, id, network), address)[k] ==
              var p := Matching(ports, address)[k]; if p.id == id then p.(physicalNetwork := network) else p
  {
    hide Lower, SetNetwork;
    if ports != [] {
      hide Matching;
      var before, p := ports[..|ports| - 1], ports[|ports| - 1];
      var p' := if p.id == id then p.(physicalNetwork := network) else p;
      MatchingAfterSet(before, id, network, address);
      assert ports == before + [p];
      MatchingSnoc(before, p, address);
      assert SetNetwork(ports, id, network) == SetNetwork(before, id, network) + [p'];
      MatchingSnoc(SetNetwork(before, id, network), p', address);
    }
  }

  lemma {:induction false} NamedAfterSet(nodes: seq<Node>, node: Node, name: string)
    requires forall i :: 0 <= i < |nodes| && nodes[i].id == node.id ==> nodes[i].name == node.name
    ensures |Named(SetNode(nodes, node), name)| == |Named(nodes, name)|
    ensures forall k :: 0 <= k < |Named(nodes, name)| ==>
              Named(SetNode(nodes, node), name)[k] ==
              if Named(nodes, name)[k].id == node.id then node else Named(nodes, name)[k]
  {
    hide SetNode, SetNetwork;
    if nodes != [] {
      var before := nodes[..|nodes| - 1];
      NamedAfterSet(before, node, name);
      assert SetNode(nodes, node)[..|before|] == SetNode(before, node);
    }
  }

  // ---------------------------------------------------------------- ports

  /** There is exactly one port with the desired address, and it is as desired. */
  predicate Settled(ports: seq<Port>, nodeId: nat, d: PortSpec) {
    var m := Matching(ports, d.address);
    |m| == 1 && m[0].owner == Some(nodeId) && m[0].physicalNetwork == d.physicalNetwork
  }

  /** No port disappears, and none changes its id, address or owner. */
  ghost predicate Kept(ports: seq<Port>, ports': seq<Port>) {
    && |ports| <= |ports'|
    && forall i :: 0 <= i < |ports| ==> ports'[i].(physicalNetwork := ports[i].physicalNetwork) == ports[i]
  }

  lemma CreateSettles(ports: seq<Port>, nextId: nat, nodeId: nat, d: PortSpec)
    requires ValidPortList(ports, nextId) && nodeId < nextId && Lower(d.address) == d.address
    requires Matching(ports, d.address) == []
    ensures var ports' := ports + [Port(nextId, d.address, Some(nodeId), d.physicalNetwork)];
      && ValidPortList(ports', nextId + 1) && Settled(ports', nodeId, d) && Kept(ports, ports')
      && forall a :: a != d.address ==> Matching(ports', a) == Matching(ports, a)
  {
    hide Matching, Named, Extras, SetNode, SetNetwork;
    var p := Port(nextId, d.address, Some(nodeId), d.physicalNetwork);
    forall a
      ensures Matching(ports + [p], a) == Matching(ports, a) + if a == d.address then [p] else []
    {
      MatchingSnoc(ports, p, a);
    }
  }

  lemma UpdateSettles(ports: seq<Port>, nextId: nat, nodeId: nat, d: PortSpec, p: Port)
    requires ValidPortList(ports, nextId) && Matching(ports, d.address) == [p] && p.owner == Some(nodeId)
    ensures var ports' := SetNetwork(ports, p.id, d.physicalNetwork);
      && ValidPortList(ports', nextId) && Settled(ports', nodeId, d) && Kept(ports, ports')
      && forall a :: a != d.address ==> Matching(ports', a) == Matching(ports, a)
  {
    hide Matching, Named, Extras, SetNode, SetNetwork;
    MatchingAfterSet(ports, p.id, d.physicalNetwork, d.address);
    FoundPort(ports, d.address, 0);
    forall a | a != d.address
      ensures Matching(SetNetwork(ports, p.id, d.physicalNetwork), a) == Matching(ports, a)
    {
      UpdateElsewhere(ports, p, d.physicalNetwork, a);
    }
  }

  lemma UpdateElsewhere(ports: seq<Port>, p: Port, network: Option<string>, address: string)
    requires forall i, j :: 0 <= i < j < |ports| ==> ports[i].id != ports[j].id
    requires p in ports && Lower(p.address) != address
    ensures Matching(SetNetwork(ports, p.id, network), address) == Matching(ports, address)
  {
    MatchingAfterSet(ports, p.id, network, address);
    forall k | 0 <= k < |Matching(ports, address)|
      ensures Matching(ports, address)[k].id != p.id
    {
      FoundPort(ports, address, k);
    }
  }

  /** Everything a port run that raises nothing leaves behind. */
  ghost predicate PortsDone(s: Store, s': Store, nodeId: nat, desired: seq<PortSpec>) {
    && s'.nodes == s.nodes && s.nextId <= s'.nextId && ValidPortList(s'.ports, s'.nextId) && Kept(s.ports, s'.ports)
    && (forall k :: 0 <= k < |desired| ==> Settled(s'.ports, nodeId, desired[k]))
    && forall a :: a !in Addresses(desired) ==> Matching(s'.ports, a) == Matching(s.ports, a)
  }

  /** The write for one desired port settles it, leaves every other address alone and keeps every port. */
  lemma WriteSettles(all: seq<Port>, nodeId: nat, d: PortSpec, s: Store)
    requires ValidPortList(s.ports, s.nextId) && nodeId < s.nextId && Lower(d.address) == d.address
    requires PortError(all, d, Some(nodeId)).None? && Matching(s.ports, d.address) == Matching(all, d.address)
    ensures PortsDone(s, WritePort(all, nodeId, d, s), nodeId, [d])
  {
    hide Matching, Named, Extras, SetNode, SetNetwork;
    var m := Matching(all, d.address);
    assert Addresses([d]) == {d.address};
    if m == [] {
      CreateSettles(s.ports, s.nextId, nodeId, d);
    } else {
      assert m == [m[0]];
      UpdateSettles(s.ports, s.nextId, nodeId, d, m[0]);
    }
  }

  lemma PortsDoneTransitive(a: Store, b: Store, c: Store, nodeId: nat, first: seq<PortSpec>, second: seq<PortSpec>)
    requires PortsDone(a, b, nodeId, first) && PortsDone(b, c, nodeId, second)
    requires Addresses(first) !! Addresses(second)
    ensures PortsDone(a, c, nodeId, first + second)
  {
    hide Matching, Named, Extras, SetNode, SetNetwork;
    assert Addresses(first + second) == Addresses(first) + Addresses(second);
    forall k | 0 <= k < |first|
      ensures Settled(c.ports, nodeId, first[k])
    {
      assert first[k].address in Addresses(first);
      assert Settled(b.ports, nodeId, first[k]);
    }
  }

  /** The run over the desired ports works, although it decides from a snapshot while it changes the store: each
      address is written at most once, so the snapshot is still right when it is used. */
  lemma {:induction false} PortsConverge(all: seq<Port>, nodeId: nat, desired: seq<PortSpec>, s: Store)
    requires ValidPortList(s.ports, s.nextId) && nodeId < s.nextId && ValidPorts(desired)
    requires Preflight(all, desired, Some(nodeId)).None?
    requires forall k :: 0 <= k < |desired| ==>
             Matching(s.ports, desired[k].address) == Matching(all, desired[k].address)
    ensures RunPorts(all, nodeId, desired, s, false).result.Ok?
    ensures PortsDone(s, RunPorts(all, nodeId, desired, s, false).store, nodeId, desired)
  {
    hide Matching, Named, Extras, SetNode, SetNetwork;
    if desired != [] {
      var d, rest := desired[0], desired[1..];
      WriteSettles(all, nodeId, d, s);
      assert d.address !in Addresses(rest);
      PortsConverge(all, nodeId, rest, WritePort(all, nodeId, d, s));
      assert [d] + rest == desired;
      PortsDoneTransitive(s, WritePort(all, nodeId, d, s), RunPorts(all, nodeId, desired, s, false).store,
                          nodeId, [d], rest);
    }
  }

  /** What a port run answers is decided by the snapshot alone: it fails exactly as the preflight for that owner
      does, whether it writes or not. */
  lemma {:induction false} PortRunIsForeseen(all: seq<Port>, nodeId: nat, desired: seq<PortSpec>, s: Store, t: Store)
    ensures RunPorts(all, nodeId, desired, s, true).store == s
    ensures RunPorts(all, nodeId, desired, s, true).result == RunPorts(all, nodeId, desired, t, false).result
    ensures match Preflight(all, desired, Some(nodeId))
      case None => RunPorts(all, nodeId, desired, s, true).result.Ok?
      case Some(e) => RunPorts(all, nodeId, desired, s, true).result == Err(e)
  {
    hide Matching, Named, Extras, SetNode, SetNetwork;
    if desired != [] {
      PortRunIsForeseen(all, nodeId, desired[1..], s, WritePort(all, nodeId, desired[0], t));
    }
  }

  lemma {:induction false} NothingToWrite(all: seq<Port>, nodeId: nat, desired: seq<PortSpec>, s: Store, check: bool)
    requires forall k :: 0 <= k < |desired| ==> Settled(all, nodeId, desired[k])
    ensures RunPorts(all, nodeId, desired, s, check) == PortsRun(s, Ok(0))
    ensures Preflight(all, desired, Some(nodeId)).None?
  {
    if desired != [] {
      NothingToWrite(all, nodeId, desired[1..], s, check);
    }
  }

  /** Creating all ports counts all ports. */
  lemma {:induction false} AllAreCreated(all: seq<Port>, nodeId: nat, desired: seq<PortSpec>, s: Store)
    requires forall k :: 0 <= k < |desired| ==> Matching(all, desired[k].address) == []
    ensures RunPorts(all, nodeId, desired, s, true).result == Ok(|desired|)
    ensures Preflight(all, desired, Some(nodeId)).None?
  {
    if desired != [] {
      AllAreCreated(all, nodeId, desired[1..], s);
    }
  }

  lemma {:induction false} NoExtrasForUnknownNode(all: seq<Port>, nodeId: nat, desired: set<string>)
    requires forall i :: 0 <= i < |all| ==> all[i].owner != Some(nodeId)
    ensures Extras(all, nodeId, desired) == multiset{}
  {
    if all != [] {
      NoExtrasForUnknownNode(all[..|all| - 1], nodeId, desired);
    }
  }

  // ---------------------------------------------------------------- one node

  /** The inventory satisfies the specification. */
  ghost predicate Holds(s: Store, spec: Spec) {
    var n := Named(s.nodes, spec.name);
    && |n| == 1 && IsManaged(n[0], spec)
    && forall k :: 0 <= k < |spec.ports| ==> Settled(s.ports, n[0].id, spec.ports[k])
  }

  /** Nothing is deleted, nodes of other names are as they were, and so are ports of other addresses. */
  ghost predicate Preserved(s: Store, s': Store, spec: Spec) {
    && |s.nodes| <= |s'.nodes|
    && (forall i :: 0 <= i < |s.nodes| ==> s'.nodes[i].id == s.nodes[i].id && s'.nodes[i].name == s.nodes[i].name)
    && (forall i :: 0 <= i < |s.nodes| && s.nodes[i].name != spec.name ==> s'.nodes[i] == s.nodes[i])
    && (forall name :: name != spec.name ==> Named(s'.nodes, name) == Named(s.nodes, name))
    && Kept(s.ports, s'.ports)
    && forall a :: a !in Addresses(spec.ports) ==> Matching(s'.ports, a) == Matching(s.ports, a)
  }

  /** The one situation that the preflight misses: there is no node of that name yet, and some desired address
      belongs to a port without owner, which counts as unowned before the node exists and as foreign afterwards. */
  ghost predicate UnownedPortClaimed(s: Store, spec: Spec) {
    && Named(s.nodes, spec.name) == []
    && Preflight(s.ports, spec.ports, None).None?
    && exists k :: 0 <= k < |spec.ports| && Matching(s.ports, spec.ports[k].address) != []
  }

  lemma {:induction false} PreflightAccepts(all: seq<Port>, desired: seq<PortSpec>, expected: Option<nat>)
    ensures Preflight(all, desired, expected).None? <==>
            forall k :: 0 <= k < |desired| ==> PortError(all, desired[k], expected).None?
  {
    hide PortError;
    if desired != [] {
      PreflightAccepts(all, desired[1..], expected);
      assert forall k :: 0 < k < |desired| ==> desired[k] == desired[1..][k - 1];
    }
  }

  /** With unique ids, the only node of a name is recognised by its id. */
  lemma OnlyNodeOfName(nodes: seq<Node>, nextId: nat, node: Node, i: nat)
    requires ValidNodeList(nodes, nextId) && Named(nodes, node.name) == [node] && i < |nodes|
    ensures nodes[i].id == node.id <==> nodes[i].name == node.name
    ensures nodes[i].name == node.name ==> nodes[i] == node
  {
    hide Named;
    FoundNode(nodes, node.name, 0);
    NamedContains(nodes, i);
  }

  lemma ReplaceElsewhere(nodes: seq<Node>, nextId: nat, node: Node, final: Node, name: string)
    requires ValidNodeList(nodes, nextId) && Named(nodes, node.name) == [node]
    requires final.id == node.id && final.name == node.name
    ensures Named(SetNode(nodes, final), name) == if name == node.name then [final] else Named(nodes, name)
  {
    hide Named, SetNode;
    forall i | 0 <= i < |nodes|
      ensures nodes[i].id == node.id <==> nodes[i].name == node.name
    {
      OnlyNodeOfName(nodes, nextId, node, i);
    }
    NamedAfterSet(nodes, final, name);
    if name != node.name {
      forall k | 0 <= k < |Named(nodes, name)|
        ensures Named(nodes, name)[k].id != node.id
      {
        FoundNode(nodes, name, k);
      }
    }
  }

  /** Replacing the only node of a name leaves all others, and the searches for other names, alone. */
  lemma ReplaceNode(nodes: seq<Node>, nextId: nat, node: Node, final: Node)
    requires ValidNodeList(nodes, nextId) && Named(nodes, node.name) == [node]
    requires final.id == node.id && final.name == node.name
    ensures ValidNodeList(SetNode(nodes, final), nextId)
    ensures Named(SetNode(nodes, final), node.name) == [final]
    ensures forall name :: name != node.name ==> Named(SetNode(nodes, final), name) == Named(nodes, name)
    ensures forall i :: 0 <= i < |nodes| ==>
            SetNode(nodes, final)[i] == if nodes[i].name == node.name then final else nodes[i]
  {
    hide Named, SetNode;
    forall i | 0 <= i < |nodes|
      ensures nodes[i].id == node.id <==> nodes[i].name == node.name
    {
      OnlyNodeOfName(nodes, nextId, node, i);
    }
    forall name
      ensures Named(SetNode(nodes, final), name) == if name == node.name then [final] else Named(nodes, name)
    {
      ReplaceElsewhere(nodes, nextId, node, final, name);
    }
  }

  lemma {:induction false} NamedContains(nodes: seq<Node>, i: nat)
    requires i < |nodes|
    ensures nodes[i] in Named(nodes, nodes[i].name)
  {
    if i < |nodes| - 1 {
      NamedContains(nodes[..|nodes| - 1], i);
    }
  }

  lemma ConfigureStep(s: Store, node: Node, spec: Spec)
    requires ValidStore(s) && Named(s.nodes, spec.name) == [node]
    ensures var final := Manageable(Configured(node, spec));
      var nodes' := if final == node then s.nodes else SetNode(s.nodes, final);
      && Named(nodes', spec.name) == [final] && IsManaged(final, spec) && final.id == node.id
      && ValidNodeList(nodes', s.nextId) && Preserved(s, s.(nodes := nodes'), spec)
  {
    hide Matching, Named, Extras, SetNode, SetNetwork;
    var final := Manageable(Configured(node, spec));
    FoundNode(s.nodes, spec.name, 0);
    ReplaceNode(s.nodes, s.nextId, node, final);
    forall i | 0 <= i < |s.nodes|
      ensures s.nodes[i].name == spec.name ==> s.nodes[i].id == final.id
    {
      OnlyNodeOfName(s.nodes, s.nextId, node, i);
    }
  }

  lemma PortsAfterConfigure(s: Store, mid: Store, s': Store, node: Node, spec: Spec)
    requires Preserved(s, mid, spec) && mid.ports == s.ports && PortsDone(mid, s', node.id, spec.ports)
    ensures Preserved(s, s', spec)
  {
    hide Matching, Named, Extras, SetNode, SetNetwork;
  }

  /** A known node in an allowed state whose ports pass the preflight is reconciled completely. */
  lemma {:induction false} ExistingNodeConverges(s: Store, node: Node, spec: Spec, created: bool)
    requires ValidStore(s) && ValidPorts(spec.ports) && Named(s.nodes, spec.name) == [node]
    requires node.state == "enroll" || node.state == "manageable"
    requires Preflight(s.ports, spec.ports, Some(node.id)).None?
    ensures var run := ReconcileExisting(s, node, spec, false, created);
      && run.result.Ok? && Holds(run.store, spec) && ValidStore(run.store) && Preserved(s, run.store, spec)
  {
    hide Matching, Named, Extras, SetNode, SetNetwork;
    ConfigureStep(s, node, spec);
    var final := Manageable(Configured(node, spec));
    var mid := if final == node then s else s.(nodes := SetNode(s.nodes, final));
    FoundNode(s.nodes, spec.name, 0);
    PortsConverge(s.ports, node.id, spec.ports, mid);
    PortsAfterConfigure(s, mid, ReconcileExisting(s, node, spec, false, created).store, node, spec);
  }

  lemma CreatedStore(s: Store, spec: Spec)
    requires ValidStore(s) && Named(s.nodes, spec.name) == []
    ensures var node := NewNode(s.nextId, spec);
      var s1 := Store(s.nodes + [node], s.ports, s.nextId + 1);
      && ValidStore(s1) && Named(s1.nodes, spec.name) == [node] && Preserved(s, s1, spec)
  {
    hide Matching, Named, Extras, SetNode, SetNetwork;
    var node := NewNode(s.nextId, spec);
    NamedSnoc(s.nodes, node, spec.name);
    forall name | name != spec.name
      ensures Named(s.nodes + [node], name) == Named(s.nodes, name)
    {
      NamedSnoc(s.nodes, node, name);
    }
    assert ValidNodeList(s.nodes + [node], s.nextId + 1);
  }

  lemma PreservedTransitive(a: Store, b: Store, c: Store, spec: Spec)
    requires Preserved(a, b, spec) && Preserved(b, c, spec)
    ensures Preserved(a, c, spec)
  {
    hide Matching, Named, Extras, SetNode, SetNetwork;
  }

  /** After the creation of the node its ports can be reconciled exactly when no desired address was taken. */
  lemma CreatedNodePreflight(s: Store, spec: Spec)
    requires ValidStore(s) && Named(s.nodes, spec.name) == [] && Preflight(s.ports, spec.ports, None).None?
    ensures Preflight(s.ports, spec.ports, Some(s.nextId)).None? <==> !UnownedPortClaimed(s, spec)
    ensures !UnownedPortClaimed(s, spec) ==> RunPorts(s.ports, s.nextId, spec.ports, s, true).result == Ok(|spec.ports|)
  {
    hide Matching, Named, Extras, SetNode, SetNetwork;
    PreflightAccepts(s.ports, spec.ports, None);
    PreflightAccepts(s.ports, spec.ports, Some(s.nextId));
    if UnownedPortClaimed(s, spec) {
      var k :| 0 <= k < |spec.ports| && Matching(s.ports, spec.ports[k].address) != [];
      assert PortError(s.ports, spec.ports[k], None).None?;
      assert PortError(s.ports, spec.ports[k], Some(s.nextId)).Some?;
    } else {
      AllAreCreated(s.ports, s.nextId, spec.ports, s);
    }
  }

  /** All or nothing: a run that raises has changed nothing, except exactly when an address was claimed from an
      unowned port. */
  lemma AllOrNothingExactly(s: Store, spec: Spec)
    requires ValidStore(s) && ValidPorts(spec.ports)
    ensures var run := Reconcile(s, spec, false);
      run.result.Err? && run.store != s <==> UnownedPortClaimed(s, spec)
  {
    hide Matching, Named, Extras, SetNode, SetNetwork;
    var m := Named(s.nodes, spec.name);
    if |m| == 1 && Preflight(s.ports, spec.ports, Some(m[0].id)).None? {
      if m[0].state == "enroll" || m[0].state == "manageable" {
        ExistingNodeConverges(s, m[0], spec, false);
      }
    } else if |m| == 0 && Preflight(s.ports, spec.ports, None).None? {
      CreationSucceedsExactly(s, spec);
    }
  }

  /** A node that is not there is created and then reconciled; check mode stops before. */
  lemma CreationIsReconciling(s: Store, spec: Spec)
    requires Named(s.nodes, spec.name) == [] && Preflight(s.ports, spec.ports, None).None?
    ensures var node := NewNode(s.nextId, spec);
      Reconcile(s, spec, false) ==
        ReconcileExisting(Store(s.nodes + [node], s.ports, s.nextId + 1), node, spec, false, true)
    ensures Reconcile(s, spec, true).result.Ok?
  {
    hide ReconcileExisting, Named, Preflight;
  }

  lemma {:induction false} CreationRaises(s: Store, spec: Spec)
    requires ValidStore(s) && UnownedPortClaimed(s, spec)
    requires Named(s.nodes, spec.name) == [] && Preflight(s.ports, spec.ports, None).None?
    ensures Reconcile(s, spec, false).result.Err?
  {
    hide Named, Preflight, Configured, Manageable, SetNode, RunPorts, Extras, ValidStore, UnownedPortClaimed;
    var node := NewNode(s.nextId, spec);
    var s1 := Store(s.nodes + [node], s.ports, s.nextId + 1);
    var final := Manageable(Configured(node, spec));
    var mid := if final == node then s1 else s1.(nodes := SetNode(s1.nodes, final));
    CreatedNodePreflight(s, spec);
    PortRunIsForeseen(s.ports, node.id, spec.ports, s, mid);
  }

  lemma {:induction false} FailedRunKeepsNodes(all: seq<Port>, nodeId: nat, desired: seq<PortSpec>, s: Store)
    ensures RunPorts(all, nodeId, desired, s, false).store.nodes == s.nodes
  {
    if desired != [] {
      FailedRunKeepsNodes(all, nodeId, desired[1..], WritePort(all, nodeId, desired[0], s));
    }
  }

  /** What the failing run leaves behind is the new node. */
  lemma {:induction false} HalfCreatedNodeStays(s: Store, spec: Spec)
    requires Named(s.nodes, spec.name) == [] && Preflight(s.ports, spec.ports, None).None?
    ensures |Reconcile(s, spec, false).store.nodes| == |s.nodes| + 1
  {
    hide Matching, Named, Extras, SetNetwork, Configured, RunPorts;
    var node := NewNode(s.nextId, spec);
    var s1 := Store(s.nodes + [node], s.ports, s.nextId + 1);
    var final := Manageable(Configured(node, spec));
    var mid := if final == node then s1 else s1.(nodes := SetNode(s1.nodes, final));
    FailedRunKeepsNodes(s.ports, node.id, spec.ports, mid);
  }

  lemma CreationSucceedsExactly(s: Store, spec: Spec)
    requires ValidStore(s) && ValidPorts(spec.ports)
    requires Named(s.nodes, spec.name) == [] && Preflight(s.ports, spec.ports, None).None?
    ensures var run := Reconcile(s, spec, false);
      if UnownedPortClaimed(s, spec) then run.result.Err? && run.store != s
      else run.result.Ok? && Holds(run.store, spec) && ValidStore(run.store) && Preserved(s, run.store, spec)
  {
    hide Reconcile, ReconcileExisting, UnownedPortClaimed, ValidStore, ValidPorts, Holds, Preserved, Preflight;
    if UnownedPortClaimed(s, spec) {
      CreationRaises(s, spec);
      HalfCreatedNodeStays(s, spec);
    } else {
      var node := NewNode(s.nextId, spec);
      var s1 := Store(s.nodes + [node], s.ports, s.nextId + 1);
      CreationIsReconciling(s, spec);
      CreatedStore(s, spec);
      CreatedNodePreflight(s, spec);
      ExistingNodeConverges(s1, node, spec, true);
      PreservedTransitive(s, s1, Reconcile(s, spec, false).store, spec);
    }
  }

  /** A run that raises nothing ends with exactly one node of the name, manageable and as specified, exactly one
      correctly owned port for every desired address, and everything that was there before. */
  lemma ReconcileEstablishes(s: Store, spec: Spec)
    requires ValidStore(s) && ValidPorts(spec.ports) && Reconcile(s, spec, false).result.Ok?
    ensures var run := Reconcile(s, spec, false);
      Holds(run.store, spec) && ValidStore(run.store) && Preserved(s, run.store, spec)
  {
    hide Matching, Named, Extras, SetNode, SetNetwork;
    var m := Named(s.nodes, spec.name);
    if |m| == 1 {
      ExistingNodeConverges(s, m[0], spec, false);
    } else {
      CreationSucceedsExactly(s, spec);
    }
  }

  /** Idempotence: on an inventory that satisfies the specification a run writes nothing and reports no change. */
  lemma ConvergedIsSilent(s: Store, spec: Spec, check: bool)
    requires Holds(s, spec)
    ensures var run := Reconcile(s, spec, check);
      run.store == s && run.result.Ok? && !run.result.value.changed && run.result.value.portsChanged == 0
  {
    hide Matching, Named, Extras, SetNode, SetNetwork;
    var node := Named(s.nodes, spec.name)[0];
    NothingToWrite(s.ports, node.id, spec.ports, s, check);
    assert node.driverInfo + spec.driverInfo == node.driverInfo;
    assert node.extra["nova_hostname" := spec.novaHostname] == node.extra;
    assert Manageable(Configured(node, spec)) == node;
  }

  /** What a run needs to succeed, seen from the inventory before it: at most one node of the name, in a state that
      can be managed and owning the desired addresses that are taken; or none, and no desired address taken. */
  ghost predicate Ready(s: Store, spec: Spec) {
    var n := Named(s.nodes, spec.name);
    if n == [] then forall k :: 0 <= k < |spec.ports| ==> Matching(s.ports, spec.ports[k].address) == []
    else
      && |n| == 1 && (n[0].state == "enroll" || n[0].state == "manageable")
      && forall k :: 0 <= k < |spec.ports| ==> PortError(s.ports, spec.ports[k], Some(n[0].id)).None?
  }

  /** A run succeeds exactly when the inventory is ready for it. */
  lemma SucceedsExactlyWhenReady(s: Store, spec: Spec)
    requires ValidStore(s) && ValidPorts(spec.ports)
    ensures Reconcile(s, spec, false).result.Ok? <==> Ready(s, spec)
  {
    hide Matching, Named, Extras, SetNode, SetNetwork, Preflight;
    var n := Named(s.nodes, spec.name);
    if |n| == 1 {
      PreflightAccepts(s.ports, spec.ports, Some(n[0].id));
      if Preflight(s.ports, spec.ports, Some(n[0].id)).None? && (n[0].state == "enroll" || n[0].state == "manageable") {
        ExistingNodeConverges(s, n[0], spec, false);
      }
    } else if n == [] {
      PreflightAccepts(s.ports, spec.ports, None);
      if Preflight(s.ports, spec.ports, None).None? {
        CreationSucceedsExactly(s, spec);
      }
    }
  }

  /** Two specifications that share neither the name nor an address. */
  ghost predicate Apart(a: Spec, b: Spec) {
    a.name != b.name && Addresses(a.ports) !! Addresses(b.ports)
  }

  /** Reconciling one node does not disturb another one. */
  lemma ReconcileKeepsOthers(s: Store, spec: Spec, other: Spec)
    requires ValidStore(s) && ValidPorts(spec.ports) && Reconcile(s, spec, false).result.Ok?
    requires Apart(spec, other) && Holds(s, other)
    ensures Holds(Reconcile(s, spec, false).store, other)
  {
    hide Matching, Named, Extras, SetNode, SetNetwork;
    ReconcileEstablishes(s, spec);
    forall k | 0 <= k < |other.ports|
      ensures other.ports[k].address !in Addresses(spec.ports)
    {
      assert other.ports[k].address in Addresses(other.ports);
    }
  }

  /** Nor does it make another one ready, or unready. */
  lemma ReadyKept(s: Store, s': Store, spec: Spec, other: Spec)
    requires Preserved(s, s', spec) && Apart(spec, other)
    ensures Ready(s', other) <==> Ready(s, other)
  {
    hide Matching, Named, Extras, SetNode, SetNetwork;
    forall k | 0 <= k < |other.ports|
      ensures Matching(s'.ports, other.ports[k].address) == Matching(s.ports, other.ports[k].address)
    {
      assert other.ports[k].address in Addresses(other.ports);
    }
  }

  // ---------------------------------------------------------------- check mode

  /** What check mode and the real run have in common when both finish. */
  predicate SameForecast(a: Report, b: Report) {
    a.changed == b.changed && a.portsChanged == b.portsChanged && a.extraPorts == b.extraPorts
  }

  /** A check-mode run writes nothing. */
  lemma CheckModeWritesNothing(s: Store, spec: Spec)
    ensures Reconcile(s, spec, true).store == s
  {
    var m := Named(s.nodes, spec.name);
    if |m| == 1 {
      PortRunIsForeseen(s.ports, m[0].id, spec.ports, s, s);
    }
  }

  lemma ExistingNodeForecast(s: Store, node: Node, spec: Spec)
    ensures var c := ReconcileExisting(s, node, spec, true, false).result;
      var r := ReconcileExisting(s, node, spec, false, false).result;
      if c.Err? then r == c else r.Ok? && SameForecast(c.value, r.value)
  {
    hide Matching, Named, Extras, SetNode, SetNetwork;
    var final := Manageable(Configured(node, spec));
    var mid := if final == node then s else s.(nodes := SetNode(s.nodes, final));
    PortRunIsForeseen(s.ports, node.id, spec.ports, s, mid);
  }

  /** Check-mode fidelity: check mode raises exactly the error that the real run raises, and otherwise foretells its
      change flag, change count and extra ports; the forecast fails exactly when an unowned port is claimed. */
  lemma CheckModeFidelityExactly(s: Store, spec: Spec)
    requires ValidStore(s) && ValidPorts(spec.ports)
    ensures var c, r := Reconcile(s, spec, true).result, Reconcile(s, spec, false).result;
      (if c.Err? then r == c else r.Ok? && SameForecast(c.value, r.value)) <==> !UnownedPortClaimed(s, spec)
  {
    hide Matching, Named, Extras, SetNode, SetNetwork;
    var m := Named(s.nodes, spec.name);
    if |m| == 1 {
      ExistingNodeForecast(s, m[0], spec);
    } else if m == [] && Preflight(s.ports, spec.ports, None).None? {
      CreationSucceedsExactly(s, spec);
      if !UnownedPortClaimed(s, spec) {
        CreatedNodePreflight(s, spec);
        var node := NewNode(s.nextId, spec);
        var s1 := Store(s.nodes + [node], s.ports, s.nextId + 1);
        var final := Manageable(Configured(node, spec));
        PortRunIsForeseen(s.ports, s.nextId, spec.ports, s,
                          if final == node then s1 else s1.(nodes := SetNode(s1.nodes, final)));
        NoExtrasForUnknownNode(s.ports, s.nextId, Addresses(spec.ports));
      }
    }
  }

  lemma MatchingAlone(p: Port, address: string)
    ensures Matching([p], address) == if Lower(p.address) == address then [p] else []
  {
    hide Lower;
    MatchingSnoc([], p, address);
    assert [] + [p] == [p];
  }

  lemma {:induction false} UnownedAlone(spec: Spec, s: Store)
    requires ValidPorts(spec.ports) && spec.ports != []
    requires s == Store([], [Port(0, spec.ports[0].address, None, None)], 1)
    ensures ValidStore(s) && UnownedPortClaimed(s, spec)
  {
    hide Lower, Matching, Preflight;
    forall k | 0 <= k < |spec.ports|
      ensures PortError(s.ports, spec.ports[k], None).None?
    {
      MatchingAlone(s.ports[0], spec.ports[k].address);
    }
    PreflightAccepts(s.ports, spec.ports, None);
    MatchingAlone(s.ports[0], spec.ports[0].address);
  }

  /** For every specification with a port there is an inventory in which the gap is real: one port at the first of its
      addresses, without owner. */
  lemma {:induction false} UnownedPortExample(spec: Spec) returns (s: Store)
    requires ValidPorts(spec.ports) && spec.ports != []
    ensures s == Store([], [Port(0, spec.ports[0].address, None, None)], 1)
    ensures ValidStore(s) && UnownedPortClaimed(s, spec)
    ensures Reconcile(s, spec, true).result.Ok? && Reconcile(s, spec, false).result.Err?
    ensures |Reconcile(s, spec, false).store.nodes| == 1
  {
    hide Reconcile, ValidStore, Preflight, Matching;
    s := Store([], [Port(0, spec.ports[0].address, None, None)], 1);
    UnownedAlone(spec, s);
    CreationIsReconciling(s, spec);
    CreationRaises(s, spec);
    HalfCreatedNodeStays(s, spec);
  }
}
