/**
 The fleet: the validator that looks at all configured nodes together, the normalization of a single node, and what
 repeated reconciliation of a validated fleet leads to.
*/
module FleetConfig {
  import opened Common
  import opened IronicNode
  import opened IronicConvergence
  import opened Text

  datatype RawPort = RawPort(address: string, physicalNetwork: Option<string>)

  /** A configured node; an empty string stands for a missing or null value. */
  datatype RawNode = RawNode(
    name: string, novaHostname: string, driver: string, networkInterface: string, desiredState: string,
    driverInfo: map<string, string>, ports: seq<RawPort>)

  // ---------------------------------------------------------------- addresses

  predicate IsHex(c: char) {
    ('0' <= c <= '9') || ('a' <= c <= 'f') || ('A' <= c <= 'F')
  }

  /** Six hexadecimal pairs between colons; the pattern's end anchor also admits one final line feed. */
  predicate IsMac(s: string) {
    && (|s| == 17 || (|s| == 18 && s[17] == 10 as char))
    && forall i :: 0 <= i < 17 ==> if i % 3 == 2 then s[i] == ':' else IsHex(s[i])
  }

  // ---------------------------------------------------------------- normalization of one node

  function RequiredDriverInfo(driver: string): Option<seq<string>> {
    if driver == "redfish" then Some(["redfish_address", "redfish_system_id", "redfish_username", "redfish_password"])
    else if driver == "ipmi" then Some(["ipmi_address", "ipmi_username", "ipmi_password"])
    else None
  }

  /** The value of a key, or the empty string. */
  function Get(info: map<string, string>, key: string): string {
    if key in info then info[key] else ""
  }

  function FirstMissing(info: map<string, string>, keys: seq<string>): Option<string> {
    if keys == [] then None else if Get(info, keys[0]) == "" then Some(keys[0]) else FirstMissing(info, keys[1..])
  }

  function NormalizePorts(ports: seq<RawPort>, seen: set<string>): Result<seq<PortSpec>, Error> {
    if ports == [] then Ok([])
    else
      var mac := Lower(ports[0].address);
      if !IsMac(mac) then Err(InvalidMac(mac))
      else if mac in seen then Err(DuplicateMac(mac))
      else match NormalizePorts(ports[1..], seen + {mac})
        case Err(e) => Err(e)
        case Ok(rest) => Ok([PortSpec(mac, ports[0].physicalNetwork)] + rest)
  }

  function Normalize(raw: RawNode): Result<Spec, Error> {
    var name, host, driver := Strip(raw.name), Strip(raw.novaHostname), Lower(Strip(raw.driver));
    if name == "" || host == "" then Err(MissingName)
    else if RequiredDriverInfo(driver).None? then Err(BadDriver)
    else if raw.networkInterface != "noop" then Err(BadInterface)
    else if raw.desiredState != "manageable" then Err(BadProvisionState)
    else match FirstMissing(raw.driverInfo, RequiredDriverInfo(driver).value)
      case Some(key) => Err(MissingDriverInfo(key))
      case None =>
        match NormalizePorts(raw.ports, {})
        case Err(e) => Err(e)
        case Ok(ports) => Ok(Spec(name, host, driver, raw.driverInfo, ports))
  }

  function Prepend(done: seq<PortSpec>, rest: Result<seq<PortSpec>, Error>): Result<seq<PortSpec>, Error> {
    if rest.Ok? then Ok(done + rest.value) else rest
  }

  method NormalizeSpec(raw: RawNode) returns (r: Result<Spec, Error>)
    ensures r == Normalize(raw)
  {
    var name, host, driver := Strip(raw.name), Strip(raw.novaHostname), Lower(Strip(raw.driver));
    if name == "" || host == "" {
      return Err(MissingName);
    }
    if RequiredDriverInfo(driver).None? {
      return Err(BadDriver);
    }
    if raw.networkInterface != "noop" {
      return Err(BadInterface);
    }
    if raw.desiredState != "manageable" {
      return Err(BadProvisionState);
    }
    var keys := RequiredDriverInfo(driver).value;
    for k := 0 to |keys|
      invariant FirstMissing(raw.driverInfo, keys[k..]) == FirstMissing(raw.driverInfo, keys)
    {
      assert keys[k..][1..] == keys[k + 1..];
      if Get(raw.driverInfo, keys[k]) == "" {
        return Err(MissingDriverInfo(keys[k]));
      }
    }
    var ports := CollectPorts(raw.ports);
    if ports.Err? {
      return Err(ports.error);
    }
    r := Ok(Spec(name, host, driver, raw.driverInfo, ports.value));
  }

  /** The loop that collects the ports and the addresses seen so far. */
  method CollectPorts(ports: seq<RawPort>) returns (r: Result<seq<PortSpec>, Error>)
    ensures r == NormalizePorts(ports, {})
  {
    hide Lower, IsMac;
    var normalized: seq<PortSpec> := [];
    var addresses: set<string> := {};
    ghost var all := NormalizePorts(ports, {});
    assert ports[0..] == ports && (all.Ok? ==> [] + all.value == all.value);
    for k := 0 to |ports|
      invariant Prepend(normalized, NormalizePorts(ports[k..], addresses)) == all
    {
      assert ports[k..][1..] == ports[k + 1..];
      var address := Lower(ports[k].address);
      if !IsMac(address) {
        return Err(InvalidMac(address));
      }
      if address in addresses {
        return Err(DuplicateMac(address));
      }
      addresses := addresses + {address};
      var port := PortSpec(address, ports[k].physicalNetwork);
      ghost var rest := NormalizePorts(ports[k + 1..], addresses);
      if rest.Ok? {
        ConcatAssociates(normalized, [port], [], rest.value);
      }
      normalized := normalized + [port];
    }
    assert ports[|ports|..] == [] && normalized + [] == normalized;
    r := Ok(normalized);
  }

  // ---------------------------------------------------------------- validation of the fleet

  datatype ConfigError =
    | ServiceNotEnabled(service: string) | NoComputeSection
    | DuplicateName(name: string) | NotACompute(name: string) | WrongInterface(name: string) | WrongState(name: string)
    | WrongDriver(name: string) | MissingInfo(name: string, key: string)
    | DuplicateSystem(address: string, system: string)
    | BadMac(name: string, mac: string) | RepeatedMac(mac: string)

  const REQUIRED_SERVICES := ["enable_ironic", "enable_masakari", "enable_mistral", "enable_powerops"]

  /** What the nodes before the current one have used up. */
  datatype Seen = Seen(names: set<string>, macs: set<string>, systems: set<(string, string)>)

  function ErrorIf(condition: bool, e: ConfigError): seq<ConfigError> {
    if condition then [e] else []
  }

  function ServiceErrors(flags: map<string, string>, services: seq<string>): seq<ConfigError> {
    if services == [] then []
    else ErrorIf(Get(flags, services[0]) != "yes", ServiceNotEnabled(services[0])) + ServiceErrors(flags, services[1..])
  }

  function InfoErrors(name: string, info: map<string, string>, keys: seq<string>): seq<ConfigError> {
    if keys == [] then []
    else ErrorIf(Get(info, keys[0]) == "", MissingInfo(name, keys[0])) + InfoErrors(name, info, keys[1..])
  }

  /** Each address is checked against those of all ports before it, of this node and of the earlier ones. */
  function PortErrors(name: string, ports: seq<RawPort>, macs: set<string>): seq<ConfigError> {
    if ports == [] then []
    else
      var mac := Lower(ports[0].address);
      ErrorIf(!IsMac(mac), BadMac(name, mac)) + ErrorIf(mac in macs, RepeatedMac(mac)) +
      PortErrors(name, ports[1..], macs + {mac})
  }

  function Macs(ports: seq<RawPort>): set<string> {
    set p | p in ports :: Lower(p.address)
  }

  function DisplayName(node: RawNode): string {
    if node.name == "" then "<unnamed>" else node.name
  }

  function System(node: RawNode): (string, string) {
    (Get(node.driverInfo, "redfish_address"), Get(node.driverInfo, "redfish_system_id"))
  }

  function NodeErrors(node: RawNode, computes: set<string>, seen: Seen): seq<ConfigError> {
    var name := DisplayName(node);
    var required := RequiredDriverInfo(node.driver);
    var fields :=
      ErrorIf(name in seen.names, DuplicateName(name)) +
      ErrorIf(node.novaHostname !in computes, NotACompute(name)) +
      ErrorIf(node.networkInterface != "noop", WrongInterface(name)) +
      ErrorIf(node.desiredState != "manageable", WrongState(name));
    var info := if required.None? then [WrongDriver(name)] else InfoErrors(name, node.driverInfo, required.value);
    var system := ErrorIf(node.driver == "redfish" && System(node) in seen.systems,
                          DuplicateSystem(System(node).0, System(node).1));
    fields + info + system + PortErrors(name, node.ports, seen.macs)
  }

  function SeenAfter(node: RawNode, seen: Seen): Seen {
    Seen(seen.names + {DisplayName(node)}, seen.macs + Macs(node.ports),
         if node.driver == "redfish" then seen.systems + {System(node)} else seen.systems)
  }

  function FleetErrors(nodes: seq<RawNode>, computes: set<string>, seen: Seen): seq<ConfigError> {
    if nodes == [] then []
    else NodeErrors(nodes[0], computes, seen) + FleetErrors(nodes[1..], computes, SeenAfter(nodes[0], seen))
  }

  const NOTHING_SEEN := Seen({}, {}, {})

  /** All violations of the input contract; no [compute] section is an error and an empty set of computes. */
  function ConfigErrors(flags: map<string, string>, computes: Option<set<string>>,
                        nodes: seq<RawNode>): seq<ConfigError> {
    ServiceErrors(flags, REQUIRED_SERVICES) +
    (if computes.None? then [NoComputeSection] else []) +
    FleetErrors(nodes, if computes.None? then {} else computes.value, NOTHING_SEEN)
  }

  method ValidateNode(node: RawNode, computes: set<string>, seen: Seen) returns (errors: seq<ConfigError>, seen': Seen)
    ensures errors == NodeErrors(node, computes, seen) && seen' == SeenAfter(node, seen)
  {
    hide PortErrors, InfoErrors, RequiredDriverInfo;
    var name := DisplayName(node);
    var fields := ErrorIf(name in seen.names, DuplicateName(name));
    fields := fields + ErrorIf(node.novaHostname !in computes, NotACompute(name));
    fields := fields + ErrorIf(node.networkInterface != "noop", WrongInterface(name));
    fields := fields + ErrorIf(node.desiredState != "manageable", WrongState(name));
    var required := RequiredDriverInfo(node.driver);
    var info := [WrongDriver(name)];
    if required.Some? {
      info := ValidateInfo(name, node.driverInfo, required.value);
    }
    var system, systems := [], seen.systems;
    if node.driver == "redfish" {
      system := ErrorIf(System(node) in systems, DuplicateSystem(System(node).0, System(node).1));
      systems := systems + {System(node)};
    }
    var ports, macs := ValidatePorts(name, node.ports, seen.macs);
    errors := fields + info + system + ports;
    seen' := Seen(seen.names + {name}, macs, systems);
  }

  method ValidateInfo(name: string, info: map<string, string>, keys: seq<string>) returns (errors: seq<ConfigError>)
    ensures errors == InfoErrors(name, info, keys)
  {
    errors := [];
    assert keys[0..] == keys;
    for k := 0 to |keys|
      invariant errors + InfoErrors(name, info, keys[k..]) == InfoErrors(name, info, keys)
    {
      assert keys[k..][1..] == keys[k + 1..];
      var found := ErrorIf(Get(info, keys[k]) == "", MissingInfo(name, keys[k]));
      ConcatAssociates(errors, found, [], InfoErrors(name, info, keys[k + 1..]));
      errors := errors + found;
    }
  }

  lemma MacsSnoc(ports: seq<RawPort>, k: nat)
    requires k < |ports|
    ensures Macs(ports[..k + 1]) == Macs(ports[..k]) + {Lower(ports[k].address)}
  {
    hide Lower;
    assert ports[..k + 1] == ports[..k] + [ports[k]];
  }

  lemma NoMacs(ports: seq<RawPort>)
    ensures Macs(ports[..0]) == {}
  {
  }

  method ValidatePorts(name: string, ports: seq<RawPort>, seen: set<string>)
    returns (errors: seq<ConfigError>, macs: set<string>)
    ensures errors == PortErrors(name, ports, seen) && macs == seen + Macs(ports)
  {
    hide Lower, IsMac, Macs;
    errors, macs := [], seen;
    assert ports[0..] == ports && Macs(ports[..0]) == {} by {
      NoMacs(ports);
    }
    for k := 0 to |ports|
      invariant errors + PortErrors(name, ports[k..], macs) == PortErrors(name, ports, seen)
      invariant macs == seen + Macs(ports[..k])
    {
      assert ports[k..][1..] == ports[k + 1..];
      MacsSnoc(ports, k);
      var mac := Lower(ports[k].address);
      var bad, repeated := ErrorIf(!IsMac(mac), BadMac(name, mac)), ErrorIf(mac in macs, RepeatedMac(mac));
      ConcatAssociates(errors, bad, repeated, PortErrors(name, ports[k + 1..], macs + {mac}));
      errors := errors + bad + repeated;
      macs := macs + {mac};
    }
    assert ports[..|ports|] == ports;
  }

  method ValidateServices(flags: map<string, string>, services: seq<string>) returns (errors: seq<ConfigError>)
    ensures errors == ServiceErrors(flags, services)
  {
    errors := [];
    assert services[0..] == services;
    for k := 0 to |services|
      invariant errors + ServiceErrors(flags, services[k..]) == ServiceErrors(flags, services)
    {
      assert services[k..][1..] == services[k + 1..];
      var found := ErrorIf(Get(flags, services[k]) != "yes", ServiceNotEnabled(services[k]));
      ConcatAssociates(errors, found, [], ServiceErrors(flags, services[k + 1..]));
      errors := errors + found;
    }
  }

  method ValidateConfig(flags: map<string, string>, inventory: Option<set<string>>, nodes: seq<RawNode>)
    returns (errors: seq<ConfigError>)
    ensures errors == ConfigErrors(flags, inventory, nodes)
  {
    hide NodeErrors, SeenAfter, ServiceErrors;
    var general := ValidateServices(flags, REQUIRED_SERVICES);
    var computes := {};
    if inventory.None? {
      general := general + [NoComputeSection];
    } else {
      computes := inventory.value;
    }
    var seen := NOTHING_SEEN;
    errors := [];
    assert nodes[0..] == nodes;
    for k := 0 to |nodes|
      invariant errors + FleetErrors(nodes[k..], computes, seen) == FleetErrors(nodes, computes, NOTHING_SEEN)
    {
      assert nodes[k..][1..] == nodes[k + 1..];
      var found, seen' := ValidateNode(nodes[k], computes, seen);
      ConcatAssociates(errors, found, [], FleetErrors(nodes[k + 1..], computes, seen'));
      errors, seen := errors + found, seen';
    }
    errors := general + errors;
  }

  // ---------------------------------------------------------------- what a silent validator means

  lemma {:induction false} NoInfoErrors(name: string, info: map<string, string>, keys: seq<string>)
    ensures InfoErrors(name, info, keys) == [] <==> FirstMissing(info, keys).None?
  {
    if keys != [] {
      NoInfoErrors(name, info, keys[1..]);
    }
  }

  /** Ports without errors normalize, to lower-case addresses that nobody has used before. */
  lemma {:induction false} NoPortErrors(name: string, ports: seq<RawPort>, macs: set<string>, seen: set<string>)
    requires PortErrors(name, ports, macs) == [] && seen <= macs
    ensures var r := NormalizePorts(ports, seen);
      && r.Ok? && |r.value| == |ports|
      && (forall k :: 0 <= k < |ports| ==> r.value[k].address == Lower(ports[k].address) && r.value[k].address !in macs)
      && (forall j, k :: 0 <= j < k < |ports| ==> r.value[j].address != r.value[k].address)
  {
    hide Lower, IsMac;
    if ports != [] {
      var mac := Lower(ports[0].address);
      NoPortErrors(name, ports[1..], macs + {mac}, seen + {mac});
      PortsInFront(ports, NormalizePorts(ports[1..], seen + {mac}).value, macs);
    }
  }

  lemma PortsInFront(ports: seq<RawPort>, rest: seq<PortSpec>, macs: set<string>)
    requires ports != [] && |rest| == |ports| - 1
    requires Lower(ports[0].address) !in macs
    requires forall k :: 0 <= k < |rest| ==> rest[k].address == Lower(ports[1..][k].address)
    requires forall k :: 0 <= k < |rest| ==> rest[k].address !in macs + {Lower(ports[0].address)}
    requires forall j, k :: 0 <= j < k < |rest| ==> rest[j].address != rest[k].address
    ensures var all := [PortSpec(Lower(ports[0].address), ports[0].physicalNetwork)] + rest;
      && (forall k :: 0 <= k < |ports| ==> all[k].address == Lower(ports[k].address) && all[k].address !in macs)
      && (forall j, k :: 0 <= j < k < |ports| ==> all[j].address != all[k].address)
  {
    hide Lower;
    var all := [PortSpec(Lower(ports[0].address), ports[0].physicalNetwork)] + rest;
    forall k | 0 < k < |ports|
      ensures all[k] == rest[k - 1] && ports[k] == ports[1..][k - 1]
    {
    }
  }

  lemma {:induction false} LowerKeepsLowerCase(s: string)
    requires forall i :: 0 <= i < |s| ==> !('A' <= s[i] <= 'Z')
    ensures Lower(s) == s
  {
    if s != "" {
      LowerKeepsLowerCase(s[1..]);
      assert [s[0]] + s[1..] == s;
    }
  }

  /** The validator's exact driver names are fixed points of the normalization. */
  lemma KnownDriverIsNormal(driver: string)
    requires RequiredDriverInfo(driver).Some?
    ensures Lower(Strip(driver)) == driver
  {
    LowerKeepsLowerCase(driver);
  }

  /** A node without errors normalizes if its name is not blank. */
  lemma NoNodeErrors(node: RawNode, computes: set<string>, seen: Seen)
    requires NodeErrors(node, computes, seen) == []
    requires forall h :: h in computes ==> Strip(h) != ""
    ensures Normalize(node).Ok? <==> Strip(node.name) != ""
    ensures Normalize(node).Ok? ==>
              var spec := Normalize(node).value;
              spec.name == Strip(node.name) && ValidPorts(spec.ports) && Addresses(spec.ports) == Macs(node.ports)
    ensures DisplayName(node) !in seen.names && Macs(node.ports) !! seen.macs
  {
    hide Lower, Strip, IsMac, InfoErrors, FirstMissing, PortErrors, NormalizePorts;
    var name := DisplayName(node);
    assert PortErrors(name, node.ports, seen.macs) == [];
    assert RequiredDriverInfo(node.driver).Some?;
    KnownDriverIsNormal(node.driver);
    NoInfoErrors(name, node.driverInfo, RequiredDriverInfo(node.driver).value);
    NoPortErrors(name, node.ports, seen.macs, {});
    var ports := NormalizePorts(node.ports, {}).value;
    PortsOfNode(node.ports, ports, seen.macs);
  }

  lemma PortsOfNode(raw: seq<RawPort>, ports: seq<PortSpec>, macs: set<string>)
    requires |raw| == |ports|
    requires forall k :: 0 <= k < |raw| ==> ports[k].address == Lower(raw[k].address) && ports[k].address !in macs
    requires forall j, k :: 0 <= j < k < |ports| ==> ports[j].address != ports[k].address
    ensures ValidPorts(ports) && Addresses(ports) == Macs(raw) && Macs(raw) !! macs
  {
    hide Lower;
    forall k | 0 <= k < |ports|
      ensures Lower(ports[k].address) == ports[k].address && ports[k].address in Macs(raw)
    {
      LowerTwice(raw[k].address);
      assert raw[k] in raw;
    }
    forall a | a in Macs(raw)
      ensures a in Addresses(ports) && a !in macs
    {
      var k :| 0 <= k < |raw| && Lower(raw[k].address) == a;
      assert ports[k] in ports;
    }
  }

  // ---------------------------------------------------------------- the fleet

  /** All nodes normalize. */
  ghost predicate AllNormalize(nodes: seq<RawNode>) {
    forall k :: 0 <= k < |nodes| ==> Normalize(nodes[k]).Ok?
  }

  function Specs(nodes: seq<RawNode>): (specs: seq<Spec>)
    requires AllNormalize(nodes)
    ensures |specs| == |nodes| && forall k :: 0 <= k < |nodes| ==> specs[k] == Normalize(nodes[k]).value
  {
    seq(|nodes|, k requires 0 <= k < |nodes| => Normalize(nodes[k]).value)
  }

  /** No two specifications share a name or an address. */
  ghost predicate PairwiseApart(specs: seq<Spec>) {
    forall j, k :: 0 <= j < k < |specs| ==> Apart(specs[j], specs[k])
  }

  ghost predicate AllValid(specs: seq<Spec>) {
    forall k :: 0 <= k < |specs| ==> ValidPorts(specs[k].ports)
  }

  /** The node has no errors of its own, given some nodes before it. */
  ghost predicate Silent(node: RawNode, computes: set<string>) {
    exists seen :: NodeErrors(node, computes, seen) == []
  }

  lemma {:induction false} SilentFleet(nodes: seq<RawNode>, computes: set<string>, seen: Seen)
    requires FleetErrors(nodes, computes, seen) == []
    requires forall h :: h in computes ==> Strip(h) != ""
    ensures forall k :: 0 <= k < |nodes| ==> Silent(nodes[k], computes)
    ensures forall k :: 0 <= k < |nodes| ==> DisplayName(nodes[k]) !in seen.names && Macs(nodes[k].ports) !! seen.macs
    ensures forall j, k :: 0 <= j < k < |nodes| ==>
              DisplayName(nodes[j]) != DisplayName(nodes[k]) && Macs(nodes[j].ports) !! Macs(nodes[k].ports)
  {
    hide NodeErrors, Macs, DisplayName, Strip;
    if nodes != [] {
      NoNodeErrors(nodes[0], computes, seen);
      assert Silent(nodes[0], computes);
      SilentFleet(nodes[1..], computes, SeenAfter(nodes[0], seen));
      assert forall k :: 0 < k < |nodes| ==> nodes[k] == nodes[1..][k - 1];
    }
  }

  /** A silent validator guarantees exactly that the nodes with a name that is not blank normalize. */
  lemma ValidatedNodesNormalizeExactly(flags: map<string, string>, inventory: Option<set<string>>, nodes: seq<RawNode>)
    requires ConfigErrors(flags, inventory, nodes) == []
    requires inventory.Some? ==> forall h :: h in inventory.value ==> Strip(h) != ""
    ensures forall k :: 0 <= k < |nodes| ==> (Normalize(nodes[k]).Ok? <==> Strip(nodes[k].name) != "")
  {
    hide NodeErrors, Strip, Normalize, ServiceErrors;
    SilentFleet(nodes, inventory.value, NOTHING_SEEN);
    forall k | 0 <= k < |nodes|
      ensures Normalize(nodes[k]).Ok? <==> Strip(nodes[k].name) != ""
    {
      assert Silent(nodes[k], inventory.value);
      var s :| NodeErrors(nodes[k], inventory.value, s) == [];
      NoNodeErrors(nodes[k], inventory.value, s);
    }
  }

  /** The specifications of a validated fleet are valid; and they are apart exactly when their names are different
      also after trimming, which the validator itself does not check. */
  lemma ValidatedFleetIsApartExactly(flags: map<string, string>, inventory: Option<set<string>>, nodes: seq<RawNode>)
    requires ConfigErrors(flags, inventory, nodes) == [] && AllNormalize(nodes)
    requires inventory.Some? ==> forall h :: h in inventory.value ==> Strip(h) != ""
    ensures AllValid(Specs(nodes))
    ensures PairwiseApart(Specs(nodes)) <==>
            forall j, k :: 0 <= j < k < |nodes| ==> Strip(nodes[j].name) != Strip(nodes[k].name)
  {
    hide NodeErrors, Strip, Normalize, ServiceErrors, Macs, Addresses;
    SilentFleet(nodes, inventory.value, NOTHING_SEEN);
    var specs := Specs(nodes);
    forall k | 0 <= k < |nodes|
      ensures specs[k].name == Strip(nodes[k].name) && ValidPorts(specs[k].ports)
      ensures Addresses(specs[k].ports) == Macs(nodes[k].ports)
    {
      assert Silent(nodes[k], inventory.value);
      var s :| NodeErrors(nodes[k], inventory.value, s) == [];
      NoNodeErrors(nodes[k], inventory.value, s);
    }
    if PairwiseApart(specs) {
      forall j, k | 0 <= j < k < |nodes|
        ensures Strip(nodes[j].name) != Strip(nodes[k].name)
      {
        assert Apart(specs[j], specs[k]);
      }
    }
  }

  /** For names without surrounding white space that condition is what the validator checks. */
  lemma TrimmedNamesAreApart(flags: map<string, string>, inventory: Option<set<string>>, nodes: seq<RawNode>)
    requires ConfigErrors(flags, inventory, nodes) == []
    requires inventory.Some? ==> forall h :: h in inventory.value ==> Strip(h) != ""
    requires forall k :: 0 <= k < |nodes| ==> nodes[k].name != "" && Strip(nodes[k].name) == nodes[k].name
    ensures AllNormalize(nodes) && AllValid(Specs(nodes)) && PairwiseApart(Specs(nodes))
  {
    hide NodeErrors, Strip, Normalize, ServiceErrors, Macs;
    ValidatedNodesNormalizeExactly(flags, inventory, nodes);
    ValidatedFleetIsApartExactly(flags, inventory, nodes);
    SilentFleet(nodes, inventory.value, NOTHING_SEEN);
  }

  /** The store after reconciling the specifications one after the other, or None when one of them raised. */
  function Pass(s: Store, specs: seq<Spec>): Option<Store>
    decreases specs
  {
    if specs == [] then Some(s)
    else
      var run := Reconcile(s, specs[0], false);
      if run.result.Err? then None else Pass(run.store, specs[1..])
  }

  /** Whether any of them reports a change. */
  predicate PassChanges(s: Store, specs: seq<Spec>)
    decreases specs
  {
    specs != [] &&
    var run := Reconcile(s, specs[0], false);
    (run.result.Ok? && run.result.value.changed) || PassChanges(run.store, specs[1..])
  }

  ghost predicate AllHold(s: Store, specs: seq<Spec>) {
    forall k :: 0 <= k < |specs| ==> Holds(s, specs[k])
  }

  /** A pass establishes each of its specifications and breaks none that held before and is apart from all. */
  lemma {:induction false} PassConverges(s: Store, specs: seq<Spec>, done: seq<Spec>)
    requires ValidStore(s) && AllValid(specs) && PairwiseApart(done + specs) && AllHold(s, done)
    requires Pass(s, specs).Some?
    ensures ValidStore(Pass(s, specs).value) && AllHold(Pass(s, specs).value, done + specs)
    decreases specs
  {
    hide Reconcile, Holds, ValidStore, ValidPorts, Apart;
    if specs != [] {
      var spec, s1 := specs[0], Reconcile(s, specs[0], false).store;
      ReconcileEstablishes(s, spec);
      var done1 := done + [spec];
      assert done1 + specs[1..] == done + specs;
      forall k | 0 <= k < |done1|
        ensures Holds(s1, done1[k])
      {
        if k < |done| {
          var all := done + specs;
          assert all[k] == done[k] && all[|done|] == spec;
          ApartIsSymmetric(done[k], spec);
          ReconcileKeepsOthers(s, spec, done[k]);
        }
      }
      PassConverges(s1, specs[1..], done1);
    } else {
      assert done + specs == done;
    }
  }

  /** Every specification alone could be reconciled with the store as it is. */
  ghost predicate AllSucceed(s: Store, specs: seq<Spec>) {
    forall k :: 0 <= k < |specs| ==> Reconcile(s, specs[k], false).result.Ok?
  }

  /** A pass raises nothing exactly when none of its specifications would on its own. */
  lemma {:induction false} PassSucceedsExactly(s: Store, specs: seq<Spec>)
    requires ValidStore(s) && AllValid(specs) && PairwiseApart(specs)
    ensures Pass(s, specs).Some? <==> AllSucceed(s, specs)
    decreases specs
  {
    hide Reconcile, ValidStore, ValidPorts, Apart, Ready, Preserved, Holds;
    if specs != [] && Reconcile(s, specs[0], false).result.Ok? {
      var s1 := Reconcile(s, specs[0], false).store;
      ReconcileEstablishes(s, specs[0]);
      PassSucceedsExactly(s1, specs[1..]);
      forall k | 0 < k < |specs|
        ensures Reconcile(s1, specs[k], false).result.Ok? <==> Reconcile(s, specs[k], false).result.Ok?
      {
        SucceedsExactlyWhenReady(s, specs[k]);
        SucceedsExactlyWhenReady(s1, specs[k]);
        ReadyKept(s, s1, specs[0], specs[k]);
      }
      assert forall k :: 0 < k < |specs| ==> specs[k] == specs[1..][k - 1];
    }
  }

  lemma {:induction false} ApartOccurOnce(specs: seq<Spec>, x: Spec)
    requires PairwiseApart(specs)
    ensures multiset(specs)[x] <= 1
  {
    hide Addresses;
    if specs != [] {
      assert specs == [specs[0]] + specs[1..];
      ApartOccurOnce(specs[1..], x);
      forall k | 0 < k < |specs|
        ensures specs[k] != specs[0]
      {
        assert Apart(specs[0], specs[k]);
      }
      assert specs[0] !in specs[1..];
    }
  }

  lemma {:induction false} TwiceOccursTwice(specs: seq<Spec>, j: nat, k: nat)
    requires j < k < |specs| && specs[j] == specs[k]
    ensures multiset(specs)[specs[k]] >= 2
  {
    assert specs == specs[..k] + specs[k..];
    assert specs[j] == specs[..k][j] && specs[k] == specs[k..][0];
    assert specs[k] in specs[..k] && specs[k] in specs[k..];
  }

  lemma {:induction false} ApartInAnyOrder(specs: seq<Spec>, other: seq<Spec>)
    requires AllValid(specs) && PairwiseApart(specs) && multiset(specs) == multiset(other)
    ensures AllValid(other) && PairwiseApart(other)
  {
    hide Apart, ValidPorts;
    forall k | 0 <= k < |other|
      ensures other[k] in specs
    {
      assert other[k] in multiset(other);
    }
    forall j, k | 0 <= j < k < |other|
      ensures Apart(other[j], other[k])
    {
      if other[j] == other[k] {
        TwiceOccursTwice(other, j, k);
        ApartOccurOnce(specs, other[k]);
        assert false;
      }
      assert other[j] in specs && other[k] in specs;
      var i, l :| 0 <= i < |specs| && 0 <= l < |specs| && specs[i] == other[j] && specs[l] == other[k];
      if l < i {
        ApartIsSymmetric(specs[l], specs[i]);
      }
    }
  }

  /** So the order of the specifications does not matter. */
  lemma {:induction false} PassInAnyOrder(s: Store, specs: seq<Spec>, other: seq<Spec>)
    requires ValidStore(s) && AllValid(specs) && PairwiseApart(specs) && multiset(specs) == multiset(other)
    ensures Pass(s, specs).Some? <==> Pass(s, other).Some?
  {
    hide Reconcile, Pass, ValidStore, AllValid, PairwiseApart, AllSucceed;
    ApartInAnyOrder(specs, other);
    PassSucceedsExactly(s, specs);
    PassSucceedsExactly(s, other);
    if AllSucceed(s, specs) {
      OthersSucceed(s, specs, other);
    }
    if AllSucceed(s, other) {
      OthersSucceed(s, other, specs);
    }
  }

  lemma OthersSucceed(s: Store, specs: seq<Spec>, other: seq<Spec>)
    requires multiset(specs) == multiset(other) && AllSucceed(s, specs)
    ensures AllSucceed(s, other)
  {
    hide Reconcile;
    forall k | 0 <= k < |other|
      ensures Reconcile(s, other[k], false).result.Ok?
    {
      assert other[k] in multiset(other);
      assert other[k] in specs;
    }
  }

  lemma ApartIsSymmetric(a: Spec, b: Spec)
    requires Apart(a, b)
    ensures Apart(b, a)
  {
  }

  /** On a converged store a pass over any of the specifications, in any order and any number of times, writes
      nothing and reports no change. */
  lemma {:induction false} LaterPassIsSilent(s: Store, specs: seq<Spec>, again: seq<Spec>)
    requires AllHold(s, specs) && forall k :: 0 <= k < |again| ==> again[k] in specs
    ensures Pass(s, again) == Some(s) && !PassChanges(s, again)
  {
    hide Reconcile, Holds;
    if again != [] {
      assert again[0] in specs;
      ConvergedIsSilent(s, again[0], false);
      LaterPassIsSilent(s, specs, again[1..]);
    }
  }

  /** Fleet convergence: after one pass over a validated fleet that raised nothing, all nodes are as specified at
      once, and later passes in any order change nothing. */
  lemma FleetConverges(flags: map<string, string>, inventory: Option<set<string>>, nodes: seq<RawNode>, s: Store,
                       again: seq<Spec>)
    requires ConfigErrors(flags, inventory, nodes) == []
    requires inventory.Some? ==> forall h :: h in inventory.value ==> Strip(h) != ""
    requires forall k :: 0 <= k < |nodes| ==> Strip(nodes[k].name) != ""
    requires forall j, k :: 0 <= j < k < |nodes| ==> Strip(nodes[j].name) != Strip(nodes[k].name)
    requires ValidStore(s)
    ensures AllNormalize(nodes)
    ensures Pass(s, Specs(nodes)).Some? && (forall k :: 0 <= k < |again| ==> again[k] in Specs(nodes)) ==>
              var s' := Pass(s, Specs(nodes)).value;
              AllHold(s', Specs(nodes)) && Pass(s', again) == Some(s') && !PassChanges(s', again)
  {
    hide NodeErrors, Strip, Normalize, ServiceErrors, Pass, PassChanges, Holds, FleetErrors;
    ValidatedNodesNormalizeExactly(flags, inventory, nodes);
    ValidatedFleetIsApartExactly(flags, inventory, nodes);
    var specs := Specs(nodes);
    if Pass(s, specs).Some? && forall k :: 0 <= k < |again| ==> again[k] in specs {
      assert [] + specs == specs;
      PassConverges(s, specs, []);
      LaterPassIsSilent(Pass(s, specs).value, specs, again);
    }
  }

  lemma TrailingSpaceIsStripped()
    ensures Strip("a ") == Strip("a") == "a"
  {
    assert "a "[..1] == "a";
    assert StripRight("a ") == StripRight("a");
  }

  lemma CompleteIpmiNode(name: string, info: map<string, string>)
    requires forall k :: k in {"ipmi_address", "ipmi_username", "ipmi_password"} ==> k in info && info[k] != ""
    ensures InfoErrors(name, info, RequiredDriverInfo("ipmi").value) == []
  {
    var keys := RequiredDriverInfo("ipmi").value;
    assert InfoErrors(name, info, keys[2..]) == [];
    assert keys[1..][1..] == keys[2..];
  }

  lemma {:induction false} EnabledServices(flags: map<string, string>, services: seq<string>)
    requires forall k :: 0 <= k < |services| ==> Get(flags, services[k]) == "yes"
    ensures ServiceErrors(flags, services) == []
  {
    if services != [] {
      EnabledServices(flags, services[1..]);
    }
  }

  /** Two nodes whose names differ only in a trailing space pass the validator, but mean the same Ironic node. */
  lemma UntrimmedNamesSlipThrough(flags: map<string, string>, node: RawNode)
    requires forall k :: 0 <= k < |REQUIRED_SERVICES| ==> Get(flags, REQUIRED_SERVICES[k]) == "yes"
    requires forall k :: k in {"ipmi_address", "ipmi_username", "ipmi_password"} ==>
               k in node.driverInfo && node.driverInfo[k] != ""
    requires node.name == "a" && node.driver == "ipmi" && node.ports == []
    requires node.networkInterface == "noop" && node.desiredState == "manageable"
    ensures ConfigErrors(flags, Some({node.novaHostname}), [node, node.(name := "a ")]) == []
    ensures Strip(node.name) == Strip("a ")
  {
    hide Strip, InfoErrors, ServiceErrors;
    var second := node.(name := "a ");
    var seen := SeenAfter(node, NOTHING_SEEN);
    TrailingSpaceIsStripped();
    EnabledServices(flags, REQUIRED_SERVICES);
    CompleteIpmiNode("a", node.driverInfo);
    CompleteIpmiNode("a ", node.driverInfo);
    assert NodeErrors(node, {node.novaHostname}, NOTHING_SEEN) == [];
    assert NodeErrors(second, {node.novaHostname}, seen) == [];
    assert [node, second][1..] == [second];
    assert FleetErrors([second], {node.novaHostname}, seen) == [];
  }
}
