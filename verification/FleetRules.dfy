/** The rules behind the two checks of configured nodes: what each of them accepts, and which errors it reports. */
module FleetRules {
  import opened Common
  import opened FleetConfig
  import opened IronicNode
  import opened Text

  // ---------------------------------------------------------------- one node

  ghost predicate HexPair(s: string) {
    |s| == 2 && forall i :: 0 <= i < 2 ==> s[i] in "0123456789abcdefABCDEF"
  }

  lemma HexDigits(c: char)
    ensures IsHex(c) <==> c in "0123456789abcdefABCDEF"
  {
  }

  ghost function Pair(s: string, k: nat): string
    requires k < 6 && 17 <= |s|
  {
    s[3 * k..3 * k + 2]
  }

  lemma PairIsHex(s: string, k: nat)
    requires k < 6 && 17 <= |s|
    ensures HexPair(Pair(s, k)) <==> IsHex(s[3 * k]) && IsHex(s[3 * k + 1])
  {
    hide IsHex;
    HexDigits(s[3 * k]);
    HexDigits(s[3 * k + 1]);
    assert Pair(s, k)[0] == s[3 * k] && Pair(s, k)[1] == s[3 * k + 1];
  }

  /** An address is six pairs of hexadecimal digits with colons between them, or that and one line feed. */
  ghost predicate SixPairs(s: string) {
    && (|s| == 17 || (|s| == 18 && s[17] == '\n'))
    && (forall k :: 0 <= k < 6 ==> HexPair(Pair(s, k)))
    && s[2] == s[5] == s[8] == s[11] == s[14] == ':'
  }

  lemma {:induction false} MacIsSixPairs(s: string)
    ensures IsMac(s) <==> SixPairs(s)
  {
    hide IsHex, HexPair, Pair;
    if IsMac(s) {
      forall k | 0 <= k < 6
        ensures HexPair(Pair(s, k))
      {
        PairIsHex(s, k);
        assert (3 * k) % 3 == 0 && (3 * k + 1) % 3 == 1;
      }
    }
    if SixPairs(s) {
      forall i | 0 <= i < 17
        ensures if i % 3 == 2 then s[i] == ':' else IsHex(s[i])
      {
        PairIsHex(s, i / 3);
      }
    }
  }

  /** The settings that the driver cannot do without, by name. */
  function Needed(driver: string): set<string> {
    if driver == "redfish" then {"redfish_address", "redfish_system_id", "redfish_username", "redfish_password"}
    else {"ipmi_address", "ipmi_username", "ipmi_password"}
  }

  ghost predicate GoodPorts(ports: seq<RawPort>) {
    && (forall i :: 0 <= i < |ports| ==> IsMac(Lower(ports[i].address)))
    && (forall i, j :: 0 <= i < j < |ports| ==> Lower(ports[i].address) != Lower(ports[j].address))
  }

  ghost predicate Acceptable(raw: RawNode) {
    var driver := Lower(Strip(raw.driver));
    && Strip(raw.name) != "" && Strip(raw.novaHostname) != ""
    && driver in {"redfish", "ipmi"} && raw.networkInterface == "noop" && raw.desiredState == "manageable"
    && (forall key :: key in Needed(driver) ==> Get(raw.driverInfo, key) != "")
    && GoodPorts(raw.ports)
  }

  lemma {:induction false} NothingMissing(info: map<string, string>, keys: seq<string>)
    ensures match FirstMissing(info, keys)
      case None => forall key :: key in keys ==> Get(info, key) != ""
      case Some(key) => key in keys && Get(info, key) == ""
  {
    hide Get;
    if keys != [] {
      NothingMissing(info, keys[1..]);
      assert keys == [keys[0]] + keys[1..];
    }
  }

  lemma NeededIsRequired(driver: string)
    ensures RequiredDriverInfo(driver).Some? <==> driver in {"redfish", "ipmi"}
    ensures RequiredDriverInfo(driver).Some? ==>
            forall key :: key in RequiredDriverInfo(driver).value <==> key in Needed(driver)
  {
  }

  /** What is wrong with the first bad port, or the normalized ports. */
  ghost predicate PortsResult(ports: seq<RawPort>, seen: set<string>, r: Result<seq<PortSpec>, Error>) {
    match r
    case Ok(specs) =>
      && |specs| == |ports| && GoodPorts(ports)
      && (forall i :: 0 <= i < |ports| ==> Lower(ports[i].address) !in seen)
      && forall i :: 0 <= i < |ports| ==> specs[i] == PortSpec(Lower(ports[i].address), ports[i].physicalNetwork)
    case Err(InvalidMac(mac)) => exists i :: 0 <= i < |ports| && Lower(ports[i].address) == mac && !IsMac(mac)
    case Err(DuplicateMac(mac)) =>
      exists j :: 0 <= j < |ports| && Lower(ports[j].address) == mac &&
                  (mac in seen || exists i :: 0 <= i < j && Lower(ports[i].address) == mac)
    case Err(_) => false
  }

  /** One good port in front changes nothing about a judgement of the others. */
  lemma {:induction false} InvalidBehind(ports: seq<RawPort>, seen: set<string>, m: string)
    requires ports != [] && PortsResult(ports[1..], seen + {Lower(ports[0].address)}, Err(InvalidMac(m)))
    ensures PortsResult(ports, seen, Err(InvalidMac(m)))
  {
    hide Lower, IsMac;
    var rest := ports[1..];
    var i :| 0 <= i < |rest| && Lower(rest[i].address) == m && !IsMac(m);
    assert ports[i + 1] == rest[i];
  }

  lemma {:induction false} DuplicateBehind(ports: seq<RawPort>, seen: set<string>, m: string)
    requires ports != [] && PortsResult(ports[1..], seen + {Lower(ports[0].address)}, Err(DuplicateMac(m)))
    ensures PortsResult(ports, seen, Err(DuplicateMac(m)))
  {
    hide Lower, IsMac;
    var mac, rest := Lower(ports[0].address), ports[1..];
    var j :| 0 <= j < |rest| && Lower(rest[j].address) == m &&
             (m in seen + {mac} || exists i :: 0 <= i < j && Lower(rest[i].address) == m);
    assert ports[j + 1] == rest[j];
    if i :| 0 <= i < j && Lower(rest[i].address) == m {
      assert ports[i + 1] == rest[i];
    }
  }

  lemma {:induction false} GoodBehind(ports: seq<RawPort>, seen: set<string>, specs: seq<PortSpec>)
    requires ports != [] && IsMac(Lower(ports[0].address)) && Lower(ports[0].address) !in seen
    requires PortsResult(ports[1..], seen + {Lower(ports[0].address)}, Ok(specs))
    ensures PortsResult(ports, seen, Ok([PortSpec(Lower(ports[0].address), ports[0].physicalNetwork)] + specs))
  {
    hide Lower, IsMac;
    assert forall i :: 0 < i < |ports| ==> ports[i] == ports[1..][i - 1];
  }

  lemma {:induction false} PortsAreJudged(ports: seq<RawPort>, seen: set<string>)
    ensures PortsResult(ports, seen, NormalizePorts(ports, seen))
  {
    hide Lower, IsMac;
    if ports != [] {
      var mac, rest := Lower(ports[0].address), ports[1..];
      PortsAreJudged(rest, seen + {mac});
      if IsMac(mac) && mac !in seen {
        match NormalizePorts(rest, seen + {mac})
        case Err(InvalidMac(m)) => InvalidBehind(ports, seen, m);
        case Err(DuplicateMac(m)) => DuplicateBehind(ports, seen, m);
        case Ok(specs) => GoodBehind(ports, seen, specs);
        case Err(_) =>
      }
    }
  }

  /** A node is accepted exactly when all rules hold; then it is trimmed and its addresses are in lower case. */
  lemma {:induction false} AcceptedExactly(raw: RawNode)
    ensures Normalize(raw).Ok? <==> Acceptable(raw)
    ensures Normalize(raw).Ok? ==>
              var spec := Normalize(raw).value;
              && spec.name == Strip(raw.name) && spec.novaHostname == Strip(raw.novaHostname)
              && spec.driver == Lower(Strip(raw.driver)) && spec.driverInfo == raw.driverInfo
              && |spec.ports| == |raw.ports|
              && forall i :: 0 <= i < |raw.ports| ==>
                   spec.ports[i] == PortSpec(Lower(raw.ports[i].address), raw.ports[i].physicalNetwork)
  {
    hide Lower, Strip, IsMac, Get, FirstMissing, NormalizePorts;
    var driver := Lower(Strip(raw.driver));
    NeededIsRequired(driver);
    PortsAreJudged(raw.ports, {});
    if RequiredDriverInfo(driver).Some? {
      NothingMissing(raw.driverInfo, RequiredDriverInfo(driver).value);
    }
  }

  /** An error says what is wrong with the node. */
  lemma {:induction false} ErrorIsTrue(raw: RawNode)
    ensures var driver := Lower(Strip(raw.driver)); match Normalize(raw)
      case Ok(_) => true
      case Err(MissingName) => Strip(raw.name) == "" || Strip(raw.novaHostname) == ""
      case Err(BadDriver) => driver !in {"redfish", "ipmi"}
      case Err(BadInterface) => raw.networkInterface != "noop"
      case Err(BadProvisionState) => raw.desiredState != "manageable"
      case Err(MissingDriverInfo(key)) => key in Needed(driver) && Get(raw.driverInfo, key) == ""
      case Err(e) => PortsResult(raw.ports, {}, Err(e))
  {
    hide Lower, Strip, IsMac, Get, FirstMissing, NormalizePorts;
    var driver := Lower(Strip(raw.driver));
    NeededIsRequired(driver);
    PortsAreJudged(raw.ports, {});
    if RequiredDriverInfo(driver).Some? {
      NothingMissing(raw.driverInfo, RequiredDriverInfo(driver).value);
    }
  }

  // ---------------------------------------------------------------- the fleet

  /** The fleet breaks the rule that this error is about. */
  ghost predicate Breaks(flags: map<string, string>, computes: Option<set<string>>, nodes: seq<RawNode>,
                         e: ConfigError)
  {
    match e
    case ServiceNotEnabled(service) =>
      && service in {"enable_ironic", "enable_masakari", "enable_mistral", "enable_powerops"}
      && Get(flags, service) != "yes"
    case NoComputeSection => computes.None?
    case DuplicateName(name) =>
      exists i, j :: 0 <= i < j < |nodes| && DisplayName(nodes[i]) == name && DisplayName(nodes[j]) == name
    case DuplicateSystem(address, system) =>
      exists i, j :: 0 <= i < j < |nodes| && IsSystem(nodes[i], address, system) && IsSystem(nodes[j], address, system)
    case RepeatedMac(mac) =>
      || (exists i, j :: 0 <= i < j < |nodes| && mac in Macs(nodes[i].ports) && mac in Macs(nodes[j].ports))
      || (exists i :: 0 <= i < |nodes| && TwicePort(nodes[i].ports, mac))
    case _ =>
      exists i :: 0 <= i < |nodes| && BreaksAlone(nodes[i], if computes.None? then {} else computes.value, e)
  }

  predicate IsSystem(node: RawNode, address: string, system: string) {
    node.driver == "redfish" && Get(node.driverInfo, "redfish_address") == address
    && Get(node.driverInfo, "redfish_system_id") == system
  }

  ghost predicate TwicePort(ports: seq<RawPort>, mac: string) {
    exists k, l :: 0 <= k < l < |ports| && Lower(ports[k].address) == mac && Lower(ports[l].address) == mac
  }

  /** A rule about one node by itself. */
  ghost predicate BreaksAlone(node: RawNode, computes: set<string>, e: ConfigError) {
    var driver := node.driver;
    match e
    case NotACompute(name) => name == DisplayName(node) && node.novaHostname !in computes
    case WrongInterface(name) => name == DisplayName(node) && node.networkInterface != "noop"
    case WrongState(name) => name == DisplayName(node) && node.desiredState != "manageable"
    case WrongDriver(name) => name == DisplayName(node) && driver !in {"redfish", "ipmi"}
    case MissingInfo(name, key) =>
      name == DisplayName(node) && driver in {"redfish", "ipmi"} && key in Needed(driver)
      && Get(node.driverInfo, key) == ""
    case BadMac(name, mac) => name == DisplayName(node) && mac in Macs(node.ports) && !IsMac(mac)
    case _ => false
  }

  /** A rule about one node and those before it. */
  ghost predicate BreaksAfter(node: RawNode, computes: set<string>, seen: Seen, e: ConfigError) {
    match e
    case DuplicateName(name) => name == DisplayName(node) && name in seen.names
    case DuplicateSystem(address, system) => IsSystem(node, address, system) && (address, system) in seen.systems
    case RepeatedMac(mac) => mac in Macs(node.ports) && (mac in seen.macs || TwicePort(node.ports, mac))
    case _ => BreaksAlone(node, computes, e)
  }

  lemma {:induction false} InfoErrorsExactly(name: string, info: map<string, string>, keys: seq<string>, e: ConfigError)
    ensures e in InfoErrors(name, info, keys) <==>
            e.MissingInfo? && e.name == name && e.key in keys && Get(info, e.key) == ""
  {
    hide Get;
    if keys != [] {
      InfoErrorsExactly(name, info, keys[1..], e);
      assert keys == [keys[0]] + keys[1..];
    }
  }

  lemma {:induction false} ServiceErrorsExactly(flags: map<string, string>, services: seq<string>, e: ConfigError)
    ensures e in ServiceErrors(flags, services) <==>
            e.ServiceNotEnabled? && e.service in services && Get(flags, e.service) != "yes"
  {
    hide Get;
    if services != [] {
      ServiceErrorsExactly(flags, services[1..], e);
      assert services == [services[0]] + services[1..];
    }
  }

  lemma {:induction false} TwiceFirst(ports: seq<RawPort>, mac: string)
    requires ports != []
    ensures TwicePort(ports, mac) <==>
            (mac == Lower(ports[0].address) && mac in Macs(ports[1..])) || TwicePort(ports[1..], mac)
    ensures TwicePort(ports[1..], mac) ==> mac in Macs(ports[1..])
  {
    hide Lower;
    var rest := ports[1..];
    if TwicePort(ports, mac) {
      var k, l :| 0 <= k < l < |ports| && Lower(ports[k].address) == mac && Lower(ports[l].address) == mac;
      assert ports[l] == rest[l - 1] && rest[l - 1] in rest;
      if 0 < k {
        assert ports[k] == rest[k - 1];
      }
    }
    if mac == Lower(ports[0].address) && mac in Macs(rest) {
      var l :| 0 <= l < |rest| && Lower(rest[l].address) == mac;
      assert ports[l + 1] == rest[l];
    }
    if TwicePort(rest, mac) {
      var k, l :| 0 <= k < l < |rest| && Lower(rest[k].address) == mac && Lower(rest[l].address) == mac;
      assert ports[k + 1] == rest[k] && ports[l + 1] == rest[l] && rest[k] in rest;
    }
  }

  lemma MacsFirst(ports: seq<RawPort>)
    requires ports != []
    ensures Macs(ports) == {Lower(ports[0].address)} + Macs(ports[1..])
  {
    hide Lower;
    assert ports == [ports[0]] + ports[1..];
  }

  lemma NoPorts(mac: string)
    ensures !TwicePort([], mac) && Macs([]) == {}
  {
  }

  lemma {:induction false} PortErrorsExactly(name: string, ports: seq<RawPort>, macs: set<string>, e: ConfigError)
    ensures e in PortErrors(name, ports, macs) <==>
            || (e.BadMac? && e.name == name && e.mac in Macs(ports) && !IsMac(e.mac))
            || (e.RepeatedMac? && e.mac in Macs(ports) && (e.mac in macs || TwicePort(ports, e.mac)))
  {
    hide Lower, IsMac, Macs, TwicePort;
    if ports != [] {
      var mac := Lower(ports[0].address);
      PortErrorsExactly(name, ports[1..], macs + {mac}, e);
      MacsFirst(ports);
      if e.RepeatedMac? {
        TwiceFirst(ports, e.mac);
      }
    } else if e.RepeatedMac? {
      NoPorts(e.mac);
    } else {
      NoPorts("");
    }
  }

  lemma InErrorIf(condition: bool, x: ConfigError, e: ConfigError)
    ensures e in ErrorIf(condition, x) <==> condition && e == x
  {
  }

  /** The four checks of single fields. */
  lemma InFieldErrors(node: RawNode, computes: set<string>, seen: Seen, e: ConfigError)
    ensures var name := DisplayName(node);
      e in ErrorIf(name in seen.names, DuplicateName(name)) +
           ErrorIf(node.novaHostname !in computes, NotACompute(name)) +
           ErrorIf(node.networkInterface != "noop", WrongInterface(name)) +
           ErrorIf(node.desiredState != "manageable", WrongState(name)) <==>
      || (name in seen.names && e == DuplicateName(name))
      || (node.novaHostname !in computes && e == NotACompute(name))
      || (node.networkInterface != "noop" && e == WrongInterface(name))
      || (node.desiredState != "manageable" && e == WrongState(name))
  {
    hide DisplayName, ErrorIf;
    var name := DisplayName(node);
    InErrorIf(name in seen.names, DuplicateName(name), e);
    InErrorIf(node.novaHostname !in computes, NotACompute(name), e);
    InErrorIf(node.networkInterface != "noop", WrongInterface(name), e);
    InErrorIf(node.desiredState != "manageable", WrongState(name), e);
  }

  lemma {:induction false} NodeErrorsExactly(node: RawNode, computes: set<string>, seen: Seen, e: ConfigError)
    ensures e in NodeErrors(node, computes, seen) <==> BreaksAfter(node, computes, seen, e)
  {
    hide Lower, IsMac, Macs, TwicePort, Get, InfoErrors, PortErrors, DisplayName, ErrorIf, RequiredDriverInfo, Needed;
    InFieldErrors(node, computes, seen, e);
    InErrorIf(node.driver == "redfish" && System(node) in seen.systems,
              DuplicateSystem(System(node).0, System(node).1), e);
    NeededIsRequired(node.driver);
    PortErrorsExactly(DisplayName(node), node.ports, seen.macs, e);
    if RequiredDriverInfo(node.driver).Some? {
      InfoErrorsExactly(DisplayName(node), node.driverInfo, RequiredDriverInfo(node.driver).value, e);
    }
  }

  // ---------------------------------------------------------------- all nodes together

  /** What the nodes before position j have used up. */
  ghost predicate SeenUpTo(nodes: seq<RawNode>, j: nat, seen: Seen)
    requires j <= |nodes|
  {
    && (forall name :: name in seen.names <==> exists i :: 0 <= i < j && DisplayName(nodes[i]) == name)
    && (forall mac :: mac in seen.macs <==> exists i :: 0 <= i < j && mac in Macs(nodes[i].ports))
    && (forall s :: s in seen.systems <==> exists i :: 0 <= i < j && IsSystem(nodes[i], s.0, s.1))
  }

  lemma {:induction false} SeenOneMore(nodes: seq<RawNode>, j: nat, seen: Seen)
    requires j < |nodes| && SeenUpTo(nodes, j, seen)
    ensures SeenUpTo(nodes, j + 1, SeenAfter(nodes[j], seen))
  {
    hide Macs, DisplayName, Get;
    var seen' := SeenAfter(nodes[j], seen);
    forall name
      ensures name in seen'.names <==> exists i :: 0 <= i < j + 1 && DisplayName(nodes[i]) == name
    {
    }
    forall mac
      ensures mac in seen'.macs <==> exists i :: 0 <= i < j + 1 && mac in Macs(nodes[i].ports)
    {
    }
    forall s
      ensures s in seen'.systems <==> exists i :: 0 <= i < j + 1 && IsSystem(nodes[i], s.0, s.1)
    {
    }
  }

  /** From position j on: some later node breaks a rule about itself and the nodes before it. */
  ghost predicate BreaksFrom(nodes: seq<RawNode>, j: nat, computes: set<string>, e: ConfigError)
    requires j <= |nodes|
  {
    match e
    case DuplicateName(name) =>
      exists i, k :: 0 <= i < k < |nodes| && j <= k && DisplayName(nodes[i]) == name && DisplayName(nodes[k]) == name
    case DuplicateSystem(address, system) =>
      exists i, k :: 0 <= i < k < |nodes| && j <= k &&
                     IsSystem(nodes[i], address, system) && IsSystem(nodes[k], address, system)
    case RepeatedMac(mac) =>
      || (exists i, k :: 0 <= i < k < |nodes| && j <= k && mac in Macs(nodes[i].ports) && mac in Macs(nodes[k].ports))
      || (exists k :: j <= k < |nodes| && TwicePort(nodes[k].ports, mac))
    case _ => exists k :: j <= k < |nodes| && BreaksAlone(nodes[k], computes, e)
  }

  lemma {:induction false} BreaksFromNext(nodes: seq<RawNode>, j: nat, computes: set<string>, seen: Seen,
                                          e: ConfigError)
    requires j < |nodes| && SeenUpTo(nodes, j, seen)
    ensures BreaksFrom(nodes, j, computes, e) <==>
            BreaksAfter(nodes[j], computes, seen, e) || BreaksFrom(nodes, j + 1, computes, e)
  {
    hide Macs, DisplayName, Get, TwicePort, BreaksAlone, IsSystem;
    match e
    case DuplicateName(name) =>
      assert BreaksFrom(nodes, j, computes, e) <==>
        || (exists i :: 0 <= i < j && DisplayName(nodes[i]) == name && DisplayName(nodes[j]) == name)
        || BreaksFrom(nodes, j + 1, computes, e);
    case DuplicateSystem(address, system) =>
      assert (address, system) in seen.systems <==> exists i :: 0 <= i < j && IsSystem(nodes[i], address, system);
    case RepeatedMac(mac) =>
      TwiceIsThere(nodes[j].ports, mac);
    case _ =>
  }

  lemma TwiceIsThere(ports: seq<RawPort>, mac: string)
    ensures TwicePort(ports, mac) ==> mac in Macs(ports)
  {
    hide Lower;
    if TwicePort(ports, mac) {
      var k, l :| 0 <= k < l < |ports| && Lower(ports[k].address) == mac && Lower(ports[l].address) == mac;
      assert ports[k] in ports;
    }
  }

  lemma {:induction false} FleetErrorsExactly(nodes: seq<RawNode>, j: nat, computes: set<string>, seen: Seen,
                                              e: ConfigError)
    requires j <= |nodes| && SeenUpTo(nodes, j, seen)
    ensures e in FleetErrors(nodes[j..], computes, seen) <==> BreaksFrom(nodes, j, computes, e)
    decreases |nodes| - j
  {
    if j < |nodes| {
      hide NodeErrors, SeenAfter, BreaksFrom, BreaksAfter, SeenUpTo;
      assert nodes[j..][1..] == nodes[j + 1..];
      SeenOneMore(nodes, j, seen);
      FleetErrorsExactly(nodes, j + 1, computes, SeenAfter(nodes[j], seen), e);
      NodeErrorsExactly(nodes[j], computes, seen, e);
      BreaksFromNext(nodes, j, computes, seen, e);
    }
  }

  /** The validator reports exactly the errors whose rule is broken somewhere in the fleet. */
  lemma {:induction false} ReportsExactly(flags: map<string, string>, computes: Option<set<string>>,
                                          nodes: seq<RawNode>, e: ConfigError)
    ensures e in ConfigErrors(flags, computes, nodes) <==> Breaks(flags, computes, nodes, e)
  {
    hide FleetErrors, ServiceErrors, Macs, DisplayName, Get, TwicePort, IsSystem;
    var hosts := if computes.None? then {} else computes.value;
    assert nodes[0..] == nodes;
    assert NoComputeSection in (if computes.None? then [NoComputeSection] else []) <==> computes.None?;
    FleetErrorsExactly(nodes, 0, hosts, NOTHING_SEEN, e);
    ServiceErrorsExactly(flags, REQUIRED_SERVICES, e);
  }

  /** Nodes without a name share one for the validator. */
  lemma {:induction false} NamelessNodesClash(flags: map<string, string>, computes: Option<set<string>>,
                                              nodes: seq<RawNode>, i: nat, j: nat)
    requires i < j < |nodes| && nodes[i].name == "" && nodes[j].name in {"", "<unnamed>"}
    ensures DuplicateName("<unnamed>") in ConfigErrors(flags, computes, nodes)
  {
    hide ConfigErrors;
    ReportsExactly(flags, computes, nodes, DuplicateName("<unnamed>"));
    assert DisplayName(nodes[i]) == "<unnamed>" && DisplayName(nodes[j]) == "<unnamed>";
  }
}
