/** What the node reconciler reports about a run is what the run did to the inventory. */
module IronicReport {
  import opened Common
  import opened IronicNode
  import opened IronicConvergence
  import opened Text

  // ---------------------------------------------------------------- ports that changed

  /** The desired ports for which a search finds something else than before. */
  ghost function ChangedPorts(before: seq<Port>, after: seq<Port>, desired: seq<PortSpec>): set<PortSpec> {
    set d | d in desired && Matching(after, d.address) != Matching(before, d.address)
  }

  lemma WriteChangesExactly(all: seq<Port>, nodeId: nat, d: PortSpec, s: Store)
    requires Lower(d.address) == d.address && PortError(all, d, Some(nodeId)).None?
    requires Matching(s.ports, d.address) == Matching(all, d.address)
    ensures Matching(WritePort(all, nodeId, d, s).ports, d.address) != Matching(s.ports, d.address) <==>
            NeedsWrite(all, d)
    ensures WritePort(all, nodeId, d, s) != s <==> NeedsWrite(all, d)
  {
    hide Matching, SetNetwork;
    var m := Matching(all, d.address);
    if m == [] {
      MatchingSnoc(s.ports, Port(s.nextId, d.address, Some(nodeId), d.physicalNetwork), d.address);
    } else if m[0].physicalNetwork != d.physicalNetwork {
      MatchingAfterSet(s.ports, m[0].id, d.physicalNetwork, d.address);
    }
  }

  /** One more port in front. */
  lemma {:induction false} OneMoreChanged(a: seq<Port>, b: seq<Port>, c: seq<Port>, desired: seq<PortSpec>)
    requires desired != [] && desired[0].address !in Addresses(desired[1..])
    requires Matching(c, desired[0].address) == Matching(b, desired[0].address)
    requires forall k :: 1 <= k < |desired| ==> Matching(b, desired[k].address) == Matching(a, desired[k].address)
    ensures |ChangedPorts(a, c, desired)| == |ChangedPorts(b, c, desired[1..])| +
            if Matching(b, desired[0].address) != Matching(a, desired[0].address) then 1 else 0
  {
    hide Matching;
    var d, rest := desired[0], desired[1..];
    assert desired == [d] + rest;
    assert d !in rest by {
      assert d in rest ==> d.address in Addresses(rest);
    }
    assert d !in ChangedPorts(b, c, rest);
    forall x
      ensures x in ChangedPorts(a, c, desired) <==>
              x in ChangedPorts(b, c, rest) || (x == d && Matching(b, d.address) != Matching(a, d.address))
    {
      if x in rest {
        var k :| 0 <= k < |rest| && rest[k] == x;
        assert desired[k + 1] == x;
      }
    }
    hide ChangedPorts, Addresses;
    if Matching(b, d.address) != Matching(a, d.address) {
      assert ChangedPorts(a, c, desired) == ChangedPorts(b, c, rest) + {d};
    } else {
      assert ChangedPorts(a, c, desired) == ChangedPorts(b, c, rest);
    }
  }

  /** A port run counts exactly the desired ports that it changes, and writes nothing where it counts nothing. */
  lemma {:induction false} PortRunCounts(all: seq<Port>, nodeId: nat, desired: seq<PortSpec>, s: Store)
    requires ValidPortList(s.ports, s.nextId) && nodeId < s.nextId && ValidPorts(desired)
    requires Preflight(all, desired, Some(nodeId)).None?
    requires forall k :: 0 <= k < |desired| ==>
             Matching(s.ports, desired[k].address) == Matching(all, desired[k].address)
    ensures var run := RunPorts(all, nodeId, desired, s, false);
      && run.result.Ok? && run.result.value == |ChangedPorts(s.ports, run.store.ports, desired)|
      && (run.store == s <==> run.result.value == 0)
  {
    hide Matching, WritePort, SetNetwork, NeedsWrite, PortError;
    if desired != [] {
      var d, rest := desired[0], desired[1..];
      var next := WritePort(all, nodeId, d, s);
      WriteSettles(all, nodeId, d, s);
      assert Addresses([d]) == {d.address};
      assert d.address !in Addresses(rest);
      PortsConverge(all, nodeId, rest, next);
      PortRunCounts(all, nodeId, rest, next);
      WriteChangesExactly(all, nodeId, d, s);
      OneMoreChanged(s.ports, next.ports, RunPorts(all, nodeId, desired, s, false).store.ports, desired);
      NothingChanged(s, RunPorts(all, nodeId, desired, s, false).store, desired);
    }
  }

  lemma NothingChanged(s: Store, s': Store, desired: seq<PortSpec>)
    ensures s' == s ==> ChangedPorts(s.ports, s'.ports, desired) == {}
  {
  }

  // ---------------------------------------------------------------- ports that nobody asked for

  /** Which of these ports the node owns. */
  ghost function OwnedAmong(ports: seq<Port>, nodeId: nat): set<nat> {
    set i: nat | i < |ports| && ports[i].owner == Some(nodeId)
  }

  lemma OwnedSnoc(ports: seq<Port>, p: Port, nodeId: nat)
    ensures |OwnedAmong(ports + [p], nodeId)| == |OwnedAmong(ports, nodeId)| + if p.owner == Some(nodeId) then 1 else 0
  {
    if p.owner == Some(nodeId) {
      assert OwnedAmong(ports + [p], nodeId) == OwnedAmong(ports, nodeId) + {|ports|};
    } else {
      assert OwnedAmong(ports + [p], nodeId) == OwnedAmong(ports, nodeId);
    }
  }

  /** Reported as extra is every port of the node whose address is not a desired one, as often as there are such. */
  lemma {:induction false} ExtrasExactly(all: seq<Port>, nodeId: nat, desired: set<string>, address: string)
    ensures Extras(all, nodeId, desired)[address] ==
            if address in desired then 0 else |OwnedAmong(Matching(all, address), nodeId)|
  {
    hide Lower, OwnedAmong;
    if all != [] {
      var before, last := all[..|all| - 1], all[|all| - 1];
      ExtrasExactly(before, nodeId, desired, address);
      assert before + [last] == all;
      hide Matching;
      MatchingSnoc(before, last, address);
      assert Matching(before, address) + [] == Matching(before, address);
      OwnedSnoc(Matching(before, address), last, nodeId);
    } else {
      NothingOwned(nodeId);
    }
  }

  lemma NothingOwned(nodeId: nat)
    ensures OwnedAmong([], nodeId) == {}
  {
  }

  // ---------------------------------------------------------------- the report of a run

  /** The report names the node and its state as the inventory has them, and the node's unwanted ports. */
  ghost predicate Describes(report: Report, s: Store, spec: Spec) {
    var n := Named(s.nodes, spec.name);
    if n == [] then report.nodeId.None? && report.provisionState == "absent" && report.extraPorts == multiset{}
    else
      && report.nodeId == Some(n[0].id) && report.provisionState == n[0].state
      && forall a :: report.extraPorts[a] ==
           if a in Addresses(spec.ports) then 0 else |OwnedAmong(Matching(s.ports, a), n[0].id)|
  }

  /** The change flag and the count of a run. */
  ghost predicate CountsChanges(report: Report, s: Store, s': Store, spec: Spec) {
    && (report.changed <==> s' != s)
    && report.portsChanged == |ChangedPorts(s.ports, s'.ports, spec.ports)|
  }

  /** A node is created as specified: nothing but its state remains to be changed. */
  lemma CreatedAsSpecified(id: nat, spec: Spec)
    ensures Configured(NewNode(id, spec), spec) == NewNode(id, spec)
    ensures IsManaged(Manageable(NewNode(id, spec)), spec)
  {
    assert spec.driverInfo + spec.driverInfo == spec.driverInfo;
    assert NewNode(id, spec).extra["nova_hostname" := spec.novaHostname] == NewNode(id, spec).extra;
  }

  lemma {:induction false} ExistingNodeReported(s: Store, node: Node, spec: Spec, created: bool)
    requires ValidStore(s) && ValidPorts(spec.ports) && Named(s.nodes, spec.name) == [node]
    requires node.state == "enroll" || node.state == "manageable"
    requires Preflight(s.ports, spec.ports, Some(node.id)).None?
    ensures var run := ReconcileExisting(s, node, spec, false, created);
      && run.result.Ok? && Describes(run.result.value, run.store, spec)
      && (run.result.value.changed <==> created || run.store != s)
      && run.result.value.portsChanged == |ChangedPorts(s.ports, run.store.ports, spec.ports)|
      && |run.store.nodes| == |s.nodes|
  {
    hide Matching, Named, Extras, SetNode, SetNetwork, RunPorts, Preflight, ValidPorts, ChangedPorts, OwnedAmong;
    ConfigureStep(s, node, spec);
    FoundNode(s.nodes, spec.name, 0);
    var final := Manageable(Configured(node, spec));
    var mid := if final == node then s else s.(nodes := SetNode(s.nodes, final));
    PortsConverge(s.ports, node.id, spec.ports, mid);
    PortRunCounts(s.ports, node.id, spec.ports, mid);
    var run := ReconcileExisting(s, node, spec, false, created);
    assert run.store.nodes == mid.nodes;
    if final != node {
      var i :| 0 <= i < |s.nodes| && s.nodes[i] == node;
      assert mid.nodes[i] == final;
    }
    forall a
      ensures run.result.value.extraPorts[a] ==
        if a in Addresses(spec.ports) then 0 else |OwnedAmong(Matching(run.store.ports, a), node.id)|
    {
      ExtrasExactly(s.ports, node.id, Addresses(spec.ports), a);
    }
  }

  /**
   The report of a successful run describes the inventory as the run leaves it; the run reports a change exactly when
   it made one, and counts exactly the desired ports that it created or updated.
   */
  lemma {:induction false} RunIsReported(s: Store, spec: Spec)
    requires ValidStore(s) && ValidPorts(spec.ports) && Reconcile(s, spec, false).result.Ok?
    ensures var run := Reconcile(s, spec, false);
      Describes(run.result.value, run.store, spec) && CountsChanges(run.result.value, s, run.store, spec)
  {
    hide Matching, Named, ReconcileExisting, Preflight, ValidPorts, ValidStore, ChangedPorts, Describes;
    var n := Named(s.nodes, spec.name);
    SucceedsExactlyWhenReady(s, spec);
    if n == [] {
      var node := NewNode(s.nextId, spec);
      CreationSucceedsExactly(s, spec);
      CreationIsReconciling(s, spec);
      CreatedStore(s, spec);
      CreatedNodePreflight(s, spec);
      ExistingNodeReported(Store(s.nodes + [node], s.ports, s.nextId + 1), node, spec, true);
    } else {
      ExistingNodeReported(s, n[0], spec, false);
    }
  }

  /** In check mode the report describes the inventory as it is. */
  lemma {:induction false} CheckIsReported(s: Store, spec: Spec)
    requires Reconcile(s, spec, true).result.Ok?
    ensures Describes(Reconcile(s, spec, true).result.value, s, spec)
  {
    hide Matching, Named, RunPorts, Preflight, OwnedAmong, Extras;
    var n := Named(s.nodes, spec.name);
    if n != [] {
      forall a
        ensures Extras(s.ports, n[0].id, Addresses(spec.ports))[a] ==
          if a in Addresses(spec.ports) then 0 else |OwnedAmong(Matching(s.ports, a), n[0].id)|
      {
        ExtrasExactly(s.ports, n[0].id, Addresses(spec.ports), a);
      }
    }
  }
}
