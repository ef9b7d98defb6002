/**
 The reconciler of one Masakari failover segment: it normalizes the wanted segment, creates or updates it and its
 hosts, and reports hosts nobody asked for without deleting them.
*/
module MasakariSegment {
  import opened Common
  import opened Text

  datatype HostSpec = HostSpec(name: string, control: string, reserved: bool, maintenance: bool)

  datatype Spec = Spec(name: string, recovery: string, description: string, hosts: seq<HostSpec>)

  /** What the API keeps of a host; a wanted host is always of type COMPUTE. */
  datatype Host = Host(id: nat, kind: string, attrs: HostSpec)

  datatype Segment = Segment(id: nat, name: string, serviceType: string, recovery: string, description: string,
                             hosts: seq<Host>)

  /** All segments; ids from nextId on are unused. */
  datatype Store = Store(segments: seq<Segment>, nextId: nat)

  datatype Error =
    | MissingName | BadServiceType | BadRecovery | MissingHostName | DuplicateWanted(host: string) | BadHostType
    | MissingControl | NoHosts | AmbiguousSegment | ForeignServiceType | DuplicateExisting(host: string)

  datatype Report = Report(changed: bool, segmentId: Option<nat>, hostsChanged: nat, extraHosts: set<string>)

  datatype Run = Run(store: Store, result: Result<Report, Error>)

  // ---------------------------------------------------------------- normalization

  /** A wanted host as it was written; an empty string stands for a missing or null value. */
  datatype RawHost = RawHost(name: string, kind: string, control: string, reserved: bool, maintenance: bool)

  datatype RawSegment = RawSegment(name: string, serviceType: string, recovery: string, description: string,
                                   hosts: seq<RawHost>)

  function HostError(h: RawHost, seen: set<string>): Option<Error> {
    if Strip(h.name) == "" then Some(MissingHostName)
    else if Strip(h.name) in seen then Some(DuplicateWanted(Strip(h.name)))
    else if Upper(if h.kind == "" then "COMPUTE" else h.kind) != "COMPUTE" then Some(BadHostType)
    else if Strip(h.control) == "" then Some(MissingControl)
    else None
  }

  function NormalHost(h: RawHost): HostSpec {
    HostSpec(Strip(h.name), Strip(h.control), h.reserved, h.maintenance)
  }

  function HostsError(hosts: seq<RawHost>, seen: set<string>): Option<Error> {
    if hosts == [] then None
    else if HostError(hosts[0], seen).Some? then HostError(hosts[0], seen)
    else HostsError(hosts[1..], seen + {Strip(hosts[0].name)})
  }

  function NormalHosts(hosts: seq<RawHost>): (specs: seq<HostSpec>)
    ensures |specs| == |hosts| && forall i :: 0 <= i < |hosts| ==> specs[i] == NormalHost(hosts[i])
  {
    seq(|hosts|, i requires 0 <= i < |hosts| => NormalHost(hosts[i]))
  }

  function SegmentError(raw: RawSegment): Option<Error> {
    if Strip(raw.name) == "" then Some(MissingName)
    else if Upper(raw.serviceType) != "COMPUTE" then Some(BadServiceType)
    else if Lower(raw.recovery) != "auto" && Lower(raw.recovery) != "reserved_host" then Some(BadRecovery)
    else if HostsError(raw.hosts, {}).Some? then HostsError(raw.hosts, {})
    else if raw.hosts == [] then Some(NoHosts)
    else None
  }

  function Normalize(raw: RawSegment): Result<Spec, Error> {
    match SegmentError(raw)
    case Some(e) => Err(e)
    case None => Ok(Spec(Strip(raw.name), Lower(raw.recovery), raw.description, NormalHosts(raw.hosts)))
  }

  /** The hosts of a normalized specification have different names. */
  ghost predicate ValidHosts(hosts: seq<HostSpec>) {
    forall i, j :: 0 <= i < j < |hosts| ==> hosts[i].name != hosts[j].name
  }

  predicate GoodHost(h: RawHost) {
    && Strip(h.name) != "" && Strip(h.control) != ""
    && Upper(if h.kind == "" then "COMPUTE" else h.kind) == "COMPUTE"
  }

  lemma {:induction false} HostsAcceptedExactly(hosts: seq<RawHost>, seen: set<string>)
    ensures HostsError(hosts, seen).None? <==>
      && (forall i :: 0 <= i < |hosts| ==> GoodHost(hosts[i]) && Strip(hosts[i].name) !in seen)
      && (forall i, j :: 0 <= i < j < |hosts| ==> Strip(hosts[i].name) != Strip(hosts[j].name))
  {
    if hosts != [] {
      hide Strip, Upper;
      HostsAcceptedExactly(hosts[1..], seen + {Strip(hosts[0].name)});
      assert forall i :: 1 <= i < |hosts| ==> hosts[i] == hosts[1..][i - 1];
    }
  }

  /** A segment is accepted exactly when it and all its hosts are well-formed and trimmed host names differ. */
  lemma AcceptedExactly(raw: RawSegment)
    ensures Normalize(raw).Ok? <==>
      && Strip(raw.name) != "" && Upper(raw.serviceType) == "COMPUTE"
      && Lower(raw.recovery) in {"auto", "reserved_host"}
      && raw.hosts != [] && (forall i :: 0 <= i < |raw.hosts| ==> GoodHost(raw.hosts[i]))
      && (forall i, j :: 0 <= i < j < |raw.hosts| ==> Strip(raw.hosts[i].name) != Strip(raw.hosts[j].name))
    ensures Normalize(raw).Ok? ==> ValidHosts(Normalize(raw).value.hosts)
  {
    hide Strip, Upper, Lower, GoodHost;
    HostsAcceptedExactly(raw.hosts, {});
  }

  method NormalizeSegmentSpec(raw: RawSegment) returns (r: Result<Spec, Error>)
    ensures r == Normalize(raw)
  {
    hide Strip, Upper, Lower;
    if Strip(raw.name) == "" {
      return Err(MissingName);
    }
    if Upper(raw.serviceType) != "COMPUTE" {
      return Err(BadServiceType);
    }
    if Lower(raw.recovery) != "auto" && Lower(raw.recovery) != "reserved_host" {
      return Err(BadRecovery);
    }
    var hosts, names := [], {};
    for k := 0 to |raw.hosts|
      invariant HostsError(raw.hosts[k..], names) == HostsError(raw.hosts, {})
      invariant hosts == NormalHosts(raw.hosts)[..k]
    {
      var h := raw.hosts[k];
      assert raw.hosts[k..][1..] == raw.hosts[k + 1..];
      var name := Strip(h.name);
      if name == "" {
        return Err(MissingHostName);
      }
      if name in names {
        return Err(DuplicateWanted(name));
      }
      names := names + {name};
      if Upper(if h.kind == "" then "COMPUTE" else h.kind) != "COMPUTE" {
        return Err(BadHostType);
      }
      if Strip(h.control) == "" {
        return Err(MissingControl);
      }
      hosts := hosts + [NormalHost(h)];
    }
    assert NormalHosts(raw.hosts)[..|raw.hosts|] == NormalHosts(raw.hosts);
    if raw.hosts == [] {
      return Err(NoHosts);
    }
    r := Ok(Spec(Strip(raw.name), Lower(raw.recovery), raw.description, hosts));
  }

  // ---------------------------------------------------------------- the API

  function Named(segments: seq<Segment>, name: string): seq<Segment> {
    if segments == [] then []
    else Named(segments[..|segments| - 1], name) +
         if segments[|segments| - 1].name == name then [segments[|segments| - 1]] else []
  }

  /** Updates address their object by id. */
  function SetSegment(segments: seq<Segment>, segment: Segment): (r: seq<Segment>)
    ensures |r| == |segments|
    ensures forall i :: 0 <= i < |segments| ==> r[i] == if segments[i].id == segment.id then segment else segments[i]
  {
    seq(|segments|, i requires 0 <= i < |segments| => if segments[i].id == segment.id then segment else segments[i])
  }

  function SetHost(hosts: seq<Host>, host: Host): (r: seq<Host>)
    ensures |r| == |hosts|
    ensures forall i :: 0 <= i < |hosts| ==> r[i] == if hosts[i].id == host.id then host else hosts[i]
  {
    seq(|hosts|, i requires 0 <= i < |hosts| => if hosts[i].id == host.id then host else hosts[i])
  }

  /** The host of that name; of several, the last. */
  function HostNamed(hosts: seq<Host>, name: string): Option<Host> {
    if hosts == [] then None
    else if hosts[|hosts| - 1].attrs.name == name then Some(hosts[|hosts| - 1])
    else HostNamed(hosts[..|hosts| - 1], name)
  }

  predicate Matches(host: Host, d: HostSpec) {
    host.kind == "COMPUTE" && host.attrs == d
  }

  /** The first host whose name an earlier one has. */
  function FirstDuplicate(hosts: seq<Host>): Option<string> {
    if hosts == [] then None
    else
      var before, last := hosts[..|hosts| - 1], hosts[|hosts| - 1];
      if FirstDuplicate(before).Some? then FirstDuplicate(before)
      else if HostNamed(before, last.attrs.name).Some? then Some(last.attrs.name)
      else None
  }

  function HostNames(hosts: seq<Host>): set<string> {
    set i | 0 <= i < |hosts| :: hosts[i].attrs.name
  }

  function WantedNames(hosts: seq<HostSpec>): set<string> {
    set i | 0 <= i < |hosts| :: hosts[i].name
  }

  // ---------------------------------------------------------------- hosts

  datatype HostsRun = HostsRun(hosts: seq<Host>, nextId: nat)

  predicate NeedsWrite(existing: seq<Host>, d: HostSpec) {
    var h := HostNamed(existing, d.name);
    h.None? || !Matches(h.value, d)
  }

  /** The write for one wanted host, decided from the listing `existing`. */
  function WriteHost(existing: seq<Host>, d: HostSpec, r: HostsRun): HostsRun {
    var h := HostNamed(existing, d.name);
    if h.None? then HostsRun(r.hosts + [Host(r.nextId, "COMPUTE", d)], r.nextId + 1)
    else if !Matches(h.value, d) then r.(hosts := SetHost(r.hosts, Host(h.value.id, "COMPUTE", d)))
    else r
  }

  function WriteHosts(existing: seq<Host>, desired: seq<HostSpec>, r: HostsRun): HostsRun
    decreases desired
  {
    if desired == [] then r
    else WriteHost(existing, desired[|desired| - 1], WriteHosts(existing, desired[..|desired| - 1], r))
  }

  function Writes(existing: seq<Host>, desired: seq<HostSpec>): nat {
    if desired == [] then 0
    else Writes(existing, desired[..|desired| - 1]) + if NeedsWrite(existing, desired[|desired| - 1]) then 1 else 0
  }

  // ---------------------------------------------------------------- the segment

  function Configured(segment: Segment, spec: Spec): Segment {
    segment.(recovery := spec.recovery, description := spec.description)
  }

  /** The part of the reconciliation once the segment is known. */
  function ReconcileExisting(s: Store, segment: Segment, spec: Spec, check: bool, created: bool): Run {
    var updated := Configured(segment, spec);
    var s1 := if check || updated == segment then s else s.(segments := SetSegment(s.segments, updated));
    match FirstDuplicate(segment.hosts)
    case Some(name) => Run(s1, Err(DuplicateExisting(name)))
    case None =>
      var n := Writes(segment.hosts, spec.hosts);
      var hosts := WriteHosts(segment.hosts, spec.hosts, HostsRun(segment.hosts, s.nextId));
      var s2 := if check || n == 0 then s1
                else Store(SetSegment(s1.segments, updated.(hosts := hosts.hosts)), hosts.nextId);
      Run(s2, Ok(Report(created || updated != segment || n > 0, Some(segment.id), n,
                        HostNames(segment.hosts) - WantedNames(spec.hosts))))
  }

  function NewSegment(id: nat, spec: Spec): Segment {
    Segment(id, spec.name, "COMPUTE", spec.recovery, spec.description, [])
  }

  function Reconcile(s: Store, spec: Spec, check: bool): Run {
    var m := Named(s.segments, spec.name);
    if |m| > 1 then Run(s, Err(AmbiguousSegment))
    else if m != [] && m[0].serviceType != "COMPUTE" then Run(s, Err(ForeignServiceType))
    else if m != [] then ReconcileExisting(s, m[0], spec, check, false)
    else if check then Run(s, Ok(Report(true, None, |spec.hosts|, {})))
    else
      var segment := NewSegment(s.nextId, spec);
      ReconcileExisting(Store(s.segments + [segment], s.nextId + 1), segment, spec, false, true)
  }

  // ---------------------------------------------------------------- the code

  class InstanceHa {
    var segments: seq<Segment>
    var nextId: nat

    constructor (s: Store)
      ensures State() == s
    {
      segments, nextId := s.segments, s.nextId;
    }

    function State(): Store
      reads this
    {
      Store(segments, nextId)
    }

    method CreateSegment(name: string, recovery: string, description: string) returns (segment: Segment)
      modifies this
      ensures segment == Segment(old(nextId), name, "COMPUTE", recovery, description, [])
      ensures State() == Store(old(segments) + [segment], old(nextId) + 1)
    {
      segment := Segment(nextId, name, "COMPUTE", recovery, description, []);
      segments, nextId := segments + [segment], nextId + 1;
    }

    method UpdateSegment(segment: Segment)
      modifies `segments
      ensures segments == SetSegment(old(segments), segment)
    {
      segments := SetSegment(segments, segment);
    }

    /** Hosts are kept in the record of their segment, which is `segment` with the hosts it has by now. */
    method CreateHost(segment: Segment, attrs: HostSpec) returns (now: Segment)
      modifies this
      ensures now == segment.(hosts := segment.hosts + [Host(old(nextId), "COMPUTE", attrs)])
      ensures State() == Store(SetSegment(old(segments), now), old(nextId) + 1)
    {
      now := segment.(hosts := segment.hosts + [Host(nextId, "COMPUTE", attrs)]);
      segments, nextId := SetSegment(segments, now), nextId + 1;
    }

    method UpdateHost(segment: Segment, host: Host) returns (now: Segment)
      modifies `segments
      ensures now == segment.(hosts := SetHost(segment.hosts, host))
      ensures segments == SetSegment(old(segments), now)
    {
      now := segment.(hosts := SetHost(segment.hosts, host));
      segments := SetSegment(segments, now);
    }
  }

  lemma SetSegmentTwice(segments: seq<Segment>, a: Segment, b: Segment)
    requires a.id == b.id
    ensures SetSegment(SetSegment(segments, a), b) == SetSegment(segments, b)
  {
  }

  method CheckDuplicates(hosts: seq<Host>) returns (duplicate: Option<string>)
    ensures duplicate == FirstDuplicate(hosts)
  {
    for k := 0 to |hosts|
      invariant FirstDuplicate(hosts[..k]).None?
    {
      assert hosts[..k + 1][..k] == hosts[..k];
      if HostNamed(hosts[..k], hosts[k].attrs.name).Some? {
        DuplicateStays(hosts, k + 1);
        return Some(hosts[k].attrs.name);
      }
    }
    assert hosts[..|hosts|] == hosts;
    duplicate := None;
  }

  lemma {:induction false} DuplicateStays(hosts: seq<Host>, n: nat)
    requires n <= |hosts| && FirstDuplicate(hosts[..n]).Some?
    ensures FirstDuplicate(hosts) == FirstDuplicate(hosts[..n])
    decreases |hosts| - n
  {
    if n < |hosts| {
      assert hosts[..n + 1][..n] == hosts[..n];
      DuplicateStays(hosts, n + 1);
    } else {
      assert hosts[..n] == hosts;
    }
  }

  method ReconcileHosts(api: InstanceHa, segment: Segment, desired: seq<HostSpec>, check: bool)
    returns (hostsChanged: nat)
    modifies api
    ensures hostsChanged == Writes(segment.hosts, desired)
    ensures var run := WriteHosts(segment.hosts, desired, HostsRun(segment.hosts, old(api.nextId)));
      api.State() ==
        if check || hostsChanged == 0 then old(api.State())
        else Store(SetSegment(old(api.segments), segment.(hosts := run.hosts)), run.nextId)
  {
    hide HostNamed, SetSegment, SetHost, Matches;
    var existing, now := segment.hosts, segment;
    ghost var start := HostsRun(segment.hosts, api.nextId);
    hostsChanged := 0;
    assert desired[..0] == [];
    for k := 0 to |desired|
      invariant hostsChanged == Writes(existing, desired[..k])
      invariant check ==> api.State() == old(api.State())
      invariant !check && hostsChanged == 0 ==> api.State() == old(api.State())
      invariant !check ==> now == segment.(hosts := WriteHosts(existing, desired[..k], start).hosts)
      invariant !check ==> api.nextId == WriteHosts(existing, desired[..k], start).nextId
      invariant !check && hostsChanged > 0 ==>
                api.State() ==
                Store(SetSegment(old(api.segments), now), WriteHosts(existing, desired[..k], start).nextId)
    {
      assert desired[..k + 1][..k] == desired[..k];
      ghost var before := now;
      var d := desired[k];
      var host := HostNamed(existing, d.name);
      if host.None? {
        hostsChanged := hostsChanged + 1;
        if !check {
          now := api.CreateHost(now, d);
          SetSegmentTwice(old(api.segments), before, now);
        }
      } else if !Matches(host.value, d) {
        hostsChanged := hostsChanged + 1;
        if !check {
          now := api.UpdateHost(now, Host(host.value.id, "COMPUTE", d));
          SetSegmentTwice(old(api.segments), before, now);
        }
      }
    }
    assert desired[..|desired|] == desired;
  }

  method ReconcileSegment(api: InstanceHa, raw: RawSegment, check: bool) returns (r: Result<Report, Error>)
    modifies api
    ensures match Normalize(raw)
      case Err(e) => r == Err(e) && api.State() == old(api.State())
      case Ok(spec) => Run(api.State(), r) == Reconcile(old(api.State()), spec, check)
  {
    hide SetSegment, HostNamed, WriteHosts, Writes, FirstDuplicate, Normalize;
    var normalized := NormalizeSegmentSpec(raw);
    if normalized.Err? {
      return Err(normalized.error);
    }
    var spec := normalized.value;
    var matches := Named(api.segments, spec.name);
    if |matches| > 1 {
      return Err(AmbiguousSegment);
    }
    if matches != [] && matches[0].serviceType != "COMPUTE" {
      return Err(ForeignServiceType);
    }
    if matches == [] && check {
      return Ok(Report(true, None, |spec.hosts|, {}));
    }
    var segment;
    if matches != [] {
      segment := matches[0];
    } else {
      segment := api.CreateSegment(spec.name, spec.recovery, spec.description);
    }
    r := ReconcileKnown(api, segment, spec, check, matches == []);
  }

  method ReconcileKnown(api: InstanceHa, segment: Segment, spec: Spec, check: bool, created: bool)
    returns (r: Result<Report, Error>)
    modifies api
    ensures Run(api.State(), r) == ReconcileExisting(old(api.State()), segment, spec, check, created)
  {
    hide SetSegment, HostNamed, WriteHosts, Writes, FirstDuplicate;
    var changed, updated := created, segment;
    if segment.recovery != spec.recovery {
      updated := updated.(recovery := spec.recovery);
    }
    if segment.description != spec.description {
      updated := updated.(description := spec.description);
    }
    if updated != segment {
      changed := true;
      if !check {
        api.UpdateSegment(updated);
      }
    }
    var duplicate := CheckDuplicates(segment.hosts);
    if duplicate.Some? {
      return Err(DuplicateExisting(duplicate.value));
    }
    var hostsChanged := ReconcileHosts(api, updated, spec.hosts, check);
    r := Ok(Report(changed || hostsChanged > 0, Some(segment.id), hostsChanged,
                   HostNames(segment.hosts) - WantedNames(spec.hosts)));
  }

  // ---------------------------------------------------------------- what host writes amount to

  ghost predicate DistinctHosts(hosts: seq<Host>, nextId: nat) {
    && (forall i, j :: 0 <= i < j < |hosts| ==>
        hosts[i].id != hosts[j].id && hosts[i].attrs.name != hosts[j].attrs.name)
    && (forall i :: 0 <= i < |hosts| ==> hosts[i].id < nextId)
  }

  lemma {:induction false} HostNamedFinds(hosts: seq<Host>, name: string)
    ensures match HostNamed(hosts, name)
      case Some(h) => h in hosts && h.attrs.name == name
      case None => forall i :: 0 <= i < |hosts| ==> hosts[i].attrs.name != name
  {
    if hosts != [] {
      HostNamedFinds(hosts[..|hosts| - 1], name);
    }
  }

  lemma HostNamedSnoc(hosts: seq<Host>, h: Host, name: string)
    ensures HostNamed(hosts + [h], name) == if h.attrs.name == name then Some(h) else HostNamed(hosts, name)
  {
    assert (hosts + [h])[..|hosts|] == hosts;
  }

  lemma {:induction false} HostNamedAfterReplace(hosts: seq<Host>, w: nat, h: Host, name: string)
    requires w < |hosts| && hosts[w].attrs.name == h.attrs.name
    requires forall i, j :: 0 <= i < j < |hosts| ==> hosts[i].attrs.name != hosts[j].attrs.name
    ensures HostNamed(hosts[w := h], name) == if name == h.attrs.name then Some(h) else HostNamed(hosts, name)
  {
    var before := hosts[..|hosts| - 1];
    if w < |hosts| - 1 {
      HostNamedAfterReplace(before, w, h, name);
      assert hosts[w := h][..|hosts| - 1] == before[w := h];
    } else {
      assert hosts[w := h][..|hosts| - 1] == before;
    }
  }

  /** An update keeps every host in its place and changes the named one only. */
  lemma HostNamedAfterSet(hosts: seq<Host>, nextId: nat, h: Host, was: Host, name: string)
    requires DistinctHosts(hosts, nextId) && was in hosts && was.id == h.id && was.attrs.name == h.attrs.name
    ensures DistinctHosts(SetHost(hosts, h), nextId)
    ensures HostNamed(SetHost(hosts, h), name) == if name == h.attrs.name then Some(h) else HostNamed(hosts, name)
  {
    hide HostNamed;
    var w :| 0 <= w < |hosts| && hosts[w] == was;
    assert SetHost(hosts, h) == hosts[w := h];
    HostNamedAfterReplace(hosts, w, h, name);
  }

  /**
   After the writes every wanted host is there as wanted, and under any other name there is what was there before;
   a host that was there keeps its id.
   */
  ghost predicate HostsDone(before: seq<Host>, desired: seq<HostSpec>, r: HostsRun) {
    && DistinctHosts(r.hosts, r.nextId)
    && (forall name :: name !in WantedNames(desired) ==> HostNamed(r.hosts, name) == HostNamed(before, name))
    && (forall d :: d in desired ==> HostNamed(r.hosts, d.name).Some? && Matches(HostNamed(r.hosts, d.name).value, d))
    && (forall d :: d in desired && HostNamed(before, d.name).Some? ==>
          HostNamed(r.hosts, d.name).value.id == HostNamed(before, d.name).value.id)
  }

  lemma {:induction false} WriteHostDone(existing: seq<Host>, desired: seq<HostSpec>, r: HostsRun)
    requires desired != [] && ValidHosts(desired) && HostsDone(existing, desired[..|desired| - 1], r)
    ensures HostsDone(existing, desired, WriteHost(existing, desired[|desired| - 1], r))
  {
    hide HostNamed, SetHost, DistinctHosts;
    var before, d := desired[..|desired| - 1], desired[|desired| - 1];
    assert desired == before + [d];
    assert WantedNames(desired) == WantedNames(before) + {d.name};
    assert d.name !in WantedNames(before);
    var r' := WriteHost(existing, d, r);
    OneHostWritten(existing, d, r);
    forall e | e in desired
      ensures e == d || (e in before && e.name != d.name)
    {
    }
  }

  /** The write for one host, seen through searches. */
  lemma OneHostWritten(existing: seq<Host>, d: HostSpec, r: HostsRun)
    requires DistinctHosts(r.hosts, r.nextId) && HostNamed(r.hosts, d.name) == HostNamed(existing, d.name)
    ensures var r' := WriteHost(existing, d, r);
      && DistinctHosts(r'.hosts, r'.nextId)
      && (forall name :: name != d.name ==> HostNamed(r'.hosts, name) == HostNamed(r.hosts, name))
      && HostNamed(r'.hosts, d.name).Some? && Matches(HostNamed(r'.hosts, d.name).value, d)
      && (HostNamed(existing, d.name).Some? ==>
          HostNamed(r'.hosts, d.name).value.id == HostNamed(existing, d.name).value.id)
  {
    hide HostNamed, SetHost;
    var r' := WriteHost(existing, d, r);
    var h := HostNamed(existing, d.name);
    HostNamedFinds(r.hosts, d.name);
    forall name
      ensures HostNamed(r'.hosts, name) ==
        if name == d.name && NeedsWrite(existing, d) then
            Some(Host(if h.None? then r.nextId else h.value.id, "COMPUTE", d))
        else HostNamed(r.hosts, name)
    {
      if h.None? {
        HostNamedSnoc(r.hosts, Host(r.nextId, "COMPUTE", d), name);
      } else if !Matches(h.value, d) {
        HostNamedAfterSet(r.hosts, r.nextId, Host(h.value.id, "COMPUTE", d), h.value, name);
      }
    }
    if h.Some? && !Matches(h.value, d) {
      HostNamedAfterSet(r.hosts, r.nextId, Host(h.value.id, "COMPUTE", d), h.value, d.name);
    }
  }

  lemma {:induction false} WriteHostsDone(existing: seq<Host>, nextId: nat, desired: seq<HostSpec>)
    requires DistinctHosts(existing, nextId) && ValidHosts(desired)
    ensures HostsDone(existing, desired, WriteHosts(existing, desired, HostsRun(existing, nextId)))
  {
    hide HostsDone, HostNamed, WriteHost;
    if desired == [] {
      NoHostsDone(existing, nextId);
    } else {
      WriteHostsDone(existing, nextId, desired[..|desired| - 1]);
      WriteHostDone(existing, desired, WriteHosts(existing, desired[..|desired| - 1], HostsRun(existing, nextId)));
    }
  }

  lemma NoHostsDone(existing: seq<Host>, nextId: nat)
    requires DistinctHosts(existing, nextId)
    ensures HostsDone(existing, [], HostsRun(existing, nextId))
  {
  }

  // ---------------------------------------------------------------- segments through searches

  ghost predicate ValidStore(s: Store) {
    && (forall i, j :: 0 <= i < j < |s.segments| ==> s.segments[i].id != s.segments[j].id)
    && (forall i :: 0 <= i < |s.segments| ==>
        s.segments[i].id < s.nextId && ValidHostIds(s.segments[i].hosts, s.nextId))
  }

  /** Ids are unique, names need not be. */
  ghost predicate ValidHostIds(hosts: seq<Host>, nextId: nat) {
    && (forall i, j :: 0 <= i < j < |hosts| ==> hosts[i].id != hosts[j].id)
    && (forall i :: 0 <= i < |hosts| ==> hosts[i].id < nextId)
  }

  lemma {:induction false} NoDuplicateMeansDistinct(hosts: seq<Host>)
    ensures FirstDuplicate(hosts).None? <==>
            forall i, j :: 0 <= i < j < |hosts| ==> hosts[i].attrs.name != hosts[j].attrs.name
  {
    if hosts != [] {
      var before := hosts[..|hosts| - 1];
      NoDuplicateMeansDistinct(before);
      HostNamedFinds(before, hosts[|hosts| - 1].attrs.name);
    }
  }

  lemma {:induction false} FoundSegment(segments: seq<Segment>, name: string) returns (w: nat)
    requires Named(segments, name) != []
    ensures w < |segments| && segments[w] == Named(segments, name)[0] && segments[w].name == name
  {
    var before := segments[..|segments| - 1];
    if Named(before, name) != [] {
      w := FoundSegment(before, name);
    } else {
      w := |segments| - 1;
    }
  }

  lemma {:induction false} NamedAfterReplace(segments: seq<Segment>, w: nat, x: Segment, name: string)
    requires w < |segments| && segments[w].name == x.name
    ensures |Named(segments[w := x], name)| == |Named(segments, name)|
    ensures name != x.name ==> Named(segments[w := x], name) == Named(segments, name)
    ensures name == x.name && Named(segments, name) == [segments[w]] ==> Named(segments[w := x], name) == [x]
  {
    var before := segments[..|segments| - 1];
    if w < |segments| - 1 {
      assert segments[w := x][..|segments| - 1] == before[w := x];
      NamedAfterReplace(before, w, x, name);
      NamedNone(before, w);
    } else {
      assert segments[w := x][..|segments| - 1] == before;
    }
  }

  /** A segment that is there is found. */
  lemma {:induction false} NamedNone(segments: seq<Segment>, w: nat)
    requires w < |segments|
    ensures Named(segments, segments[w].name) != []
  {
    if w < |segments| - 1 {
      NamedNone(segments[..|segments| - 1], w);
    }
  }

  lemma NamedSnoc(segments: seq<Segment>, x: Segment, name: string)
    ensures Named(segments + [x], name) == Named(segments, name) + if x.name == name then [x] else []
  {
    assert (segments + [x])[..|segments|] == segments;
  }

  /** Replacing the one segment of a name by one with the same id and name. */
  lemma {:induction false} ReplaceSegment(s: Store, m: Segment, x: Segment, nextId: nat)
    requires ValidStore(s) && Named(s.segments, x.name) == [m] && m.id == x.id
    requires s.nextId <= nextId && ValidHostIds(x.hosts, nextId)
    ensures var s' := Store(SetSegment(s.segments, x), nextId);
      && ValidStore(s') && Named(s'.segments, x.name) == [x]
      && (forall name :: name != x.name ==> Named(s'.segments, name) == Named(s.segments, name))
      && (x != m ==> s'.segments != s.segments) && (x == m ==> s'.segments == s.segments)
  {
    hide Named, ValidHostIds;
    var w := FoundSegment(s.segments, x.name);
    assert SetSegment(s.segments, x) == s.segments[w := x];
    forall name
      ensures name != x.name ==> Named(s.segments[w := x], name) == Named(s.segments, name)
    {
      NamedAfterReplace(s.segments, w, x, name);
    }
    NamedAfterReplace(s.segments, w, x, x.name);
    var segments' := s.segments[w := x];
    forall i | 0 <= i < |segments'|
      ensures ValidHostIds(segments'[i].hosts, nextId)
    {
      LaterHostIds(s.segments[i].hosts, s.nextId, nextId);
    }
  }

  lemma LaterHostIds(hosts: seq<Host>, nextId: nat, later: nat)
    requires ValidHostIds(hosts, nextId) && nextId <= later
    ensures ValidHostIds(hosts, later)
  {
  }

  // ---------------------------------------------------------------- what a run establishes

  /** The segment is there, once, and has every wanted host as wanted. */
  ghost predicate Holds(s: Store, spec: Spec) {
    var m := Named(s.segments, spec.name);
    && |m| == 1 && m[0].serviceType == "COMPUTE" && Configured(m[0], spec) == m[0] && FirstDuplicate(m[0].hosts).None?
    && forall d :: d in spec.hosts ==> !NeedsWrite(m[0].hosts, d)
  }

  /** The hosts of the segment of that name, if there is one. */
  function HostsOf(s: Store, name: string): seq<Host> {
    var m := Named(s.segments, name);
    if m == [] then [] else m[0].hosts
  }

  lemma {:induction false} WritesNothing(existing: seq<Host>, desired: seq<HostSpec>, r: HostsRun)
    requires forall d :: d in desired ==> !NeedsWrite(existing, d)
    ensures Writes(existing, desired) == 0 && WriteHosts(existing, desired, r) == r
  {
    if desired != [] {
      WritesNothing(existing, desired[..|desired| - 1], r);
      assert desired[|desired| - 1] in desired;
    }
  }

  /** Where nothing is written, every wanted host is already as wanted. */
  lemma {:induction false} NothingToWrite(existing: seq<Host>, desired: seq<HostSpec>)
    requires Writes(existing, desired) == 0
    ensures forall d :: d in desired ==> !NeedsWrite(existing, d)
  {
    if desired != [] {
      NothingToWrite(existing, desired[..|desired| - 1]);
      assert desired == desired[..|desired| - 1] + [desired[|desired| - 1]];
    }
  }

  lemma {:induction false} WritesToNoHosts(desired: seq<HostSpec>)
    ensures Writes([], desired) == |desired|
  {
    if desired != [] {
      WritesToNoHosts(desired[..|desired| - 1]);
    }
  }

  /** What the hosts of a segment come to in a run that succeeds. */
  lemma HostsAfterRun(existing: seq<Host>, nextId: nat, desired: seq<HostSpec>)
    requires ValidHostIds(existing, nextId) && FirstDuplicate(existing).None? && ValidHosts(desired)
    ensures var r := WriteHosts(existing, desired, HostsRun(existing, nextId));
      && ValidHostIds(r.hosts, r.nextId) && nextId <= r.nextId && FirstDuplicate(r.hosts).None?
      && (forall d :: d in desired ==> !NeedsWrite(r.hosts, d))
      && (forall name :: name !in WantedNames(desired) ==> HostNamed(r.hosts, name) == HostNamed(existing, name))
      && (Writes(existing, desired) == 0 ==> r.hosts == existing)
      && HostNames(r.hosts) - WantedNames(desired) == HostNames(existing) - WantedNames(desired)
  {
    hide Writes, HostNamed, FirstDuplicate, WriteHosts;
    var r := WriteHosts(existing, desired, HostsRun(existing, nextId));
    NoDuplicateMeansDistinct(existing);
    WriteHostsDone(existing, nextId, desired);
    NoDuplicateMeansDistinct(r.hosts);
    IdsGrow(existing, desired, HostsRun(existing, nextId));
    if Writes(existing, desired) == 0 {
      NothingToWrite(existing, desired);
      WritesNothing(existing, desired, HostsRun(existing, nextId));
    }
    forall name
      ensures name in HostNames(r.hosts) <==> HostNamed(r.hosts, name).Some?
      ensures name in HostNames(existing) <==> HostNamed(existing, name).Some?
    {
      HostNamedFinds(r.hosts, name);
      HostNamedFinds(existing, name);
    }
  }

  lemma {:induction false} IdsGrow(existing: seq<Host>, desired: seq<HostSpec>, r: HostsRun)
    ensures r.nextId <= WriteHosts(existing, desired, r).nextId
  {
    if desired != [] {
      IdsGrow(existing, desired[..|desired| - 1], r);
    }
  }

  /** Everything a successful run leaves behind. */
  ghost predicate Established(s: Store, spec: Spec, s': Store, report: Report) {
    && ValidStore(s') && Holds(s', spec)
    && (forall name :: name != spec.name ==> Named(s'.segments, name) == Named(s.segments, name))
    && (forall name :: name !in WantedNames(spec.hosts) ==>
          HostNamed(HostsOf(s', spec.name), name) == HostNamed(HostsOf(s, spec.name), name))
    && HostNames(HostsOf(s', spec.name)) - WantedNames(spec.hosts) == report.extraHosts
    && HostNames(HostsOf(s, spec.name)) - WantedNames(spec.hosts) == report.extraHosts
  }

  lemma {:induction false} ExistingEstablished(s: Store, m: Segment, spec: Spec, created: bool)
    requires ValidStore(s) && ValidHosts(spec.hosts) && Named(s.segments, spec.name) == [m]
    requires m.serviceType == "COMPUTE"
    requires m.name == spec.name && ReconcileExisting(s, m, spec, false, created).result.Ok?
    ensures var run := ReconcileExisting(s, m, spec, false, created); Established(s, spec, run.store, run.result.value)
  {
    hide Named, SetSegment, HostNamed, WriteHosts, Writes, FirstDuplicate, NeedsWrite, HostNames, WantedNames;
    var w := FoundSegment(s.segments, spec.name);
    assert ValidHostIds(m.hosts, s.nextId);
    HostsAfterRun(m.hosts, s.nextId, spec.hosts);
    var updated := Configured(m, spec);
    ReplaceSegment(s, m, updated, s.nextId);
    var hosts := WriteHosts(m.hosts, spec.hosts, HostsRun(m.hosts, s.nextId));
    var final := updated.(hosts := hosts.hosts);
    ReplaceSegment(s, m, final, hosts.nextId);
    SetSegmentTwice(s.segments, updated, final);
    var s' := ReconcileExisting(s, m, spec, false, created).store;
    assert s'.segments == SetSegment(s.segments, final);
    assert Named(s'.segments, spec.name) == [final];
  }

  /** A successful run makes the segment hold, keeps every host nobody asked for and leaves other segments alone. */
  lemma {:induction false} ReconcileEstablishes(s: Store, spec: Spec)
    requires ValidStore(s) && ValidHosts(spec.hosts) && Reconcile(s, spec, false).result.Ok?
    ensures var run := Reconcile(s, spec, false); Established(s, spec, run.store, run.result.value)
  {
    hide Named, SetSegment, HostNamed, WriteHosts, Writes, FirstDuplicate, HostNames, WantedNames;
    hide ReconcileExisting, Holds;
    var m := Named(s.segments, spec.name);
    if m != [] {
      var w := FoundSegment(s.segments, spec.name);
      assert m == [m[0]];
      ExistingEstablished(s, m[0], spec, false);
    } else {
      var x := NewSegment(s.nextId, spec);
      var s1 := Store(s.segments + [x], s.nextId + 1);
      forall name
        ensures Named(s1.segments, name) == Named(s.segments, name) + if spec.name == name then [x] else []
      {
        NamedSnoc(s.segments, x, name);
      }
      assert Named(s1.segments, spec.name) == [x];
      ValidAfterCreate(s, x);
      ExistingEstablished(s1, x, spec, true);
    }
  }

  lemma ValidAfterCreate(s: Store, x: Segment)
    requires ValidStore(s) && x.id == s.nextId && x.hosts == []
    ensures ValidStore(Store(s.segments + [x], s.nextId + 1))
  {
    forall i | 0 <= i < |s.segments|
      ensures ValidHostIds(s.segments[i].hosts, s.nextId + 1)
    {
      LaterHostIds(s.segments[i].hosts, s.nextId, s.nextId + 1);
    }
  }

  /** Where a segment already holds, a run writes nothing and reports no change. */
  lemma HeldSegmentIsSilent(s: Store, spec: Spec, check: bool)
    requires Holds(s, spec)
    ensures var run := Reconcile(s, spec, check); var m := Named(s.segments, spec.name)[0];
      run == Run(s, Ok(Report(false, Some(m.id), 0, HostNames(m.hosts) - WantedNames(spec.hosts))))
  {
    var m := Named(s.segments, spec.name)[0];
    WritesNothing(m.hosts, spec.hosts, HostsRun(m.hosts, s.nextId));
  }

  /** Running a second time with the same specification changes nothing and reports the same extra hosts. */
  lemma SecondRunChangesNothing(s: Store, spec: Spec, check: bool)
    requires ValidStore(s) && ValidHosts(spec.hosts) && Reconcile(s, spec, false).result.Ok?
    ensures var first := Reconcile(s, spec, false); var second := Reconcile(first.store, spec, check);
      && second.store == first.store && second.result.Ok?
      && !second.result.value.changed && second.result.value.hostsChanged == 0
      && second.result.value.extraHosts == first.result.value.extraHosts
  {
    hide Reconcile;
    ReconcileEstablishes(s, spec);
    HeldSegmentIsSilent(Reconcile(s, spec, false).store, spec, check);
  }

  // ---------------------------------------------------------------- check mode

  /** Check mode writes nothing, fails exactly as the real run would, and otherwise reports the same. */
  lemma CheckModeForesees(s: Store, spec: Spec)
    ensures var checked, done := Reconcile(s, spec, true), Reconcile(s, spec, false);
      && checked.store == s
      && (checked.result.Err? || done.result.Err? ==> checked.result == done.result)
      && (checked.result.Ok? ==>
            && checked.result.value.changed == done.result.value.changed
            && checked.result.value.hostsChanged == done.result.value.hostsChanged
            && checked.result.value.extraHosts == done.result.value.extraHosts)
  {
    if Named(s.segments, spec.name) == [] {
      WritesToNoHosts(spec.hosts);
    }
  }

  // ---------------------------------------------------------------- failures

  /** The segment is to be updated, and its hosts turn out ambiguous only afterwards. */
  predicate UpdatedBeforeFailing(s: Store, spec: Spec) {
    var m := Named(s.segments, spec.name);
    && |m| == 1 && m[0].serviceType == "COMPUTE"
    && (m[0].recovery != spec.recovery || m[0].description != spec.description)
    && FirstDuplicate(m[0].hosts).Some?
  }

  /** A failing run leaves everything as it was, except exactly when it updates the segment before it finds the
       duplicate. */
  lemma {:induction false} FailureKeepsStoreExactly(s: Store, spec: Spec)
    requires ValidStore(s) && Reconcile(s, spec, false).result.Err?
    ensures Reconcile(s, spec, false).store != s <==> UpdatedBeforeFailing(s, spec)
  {
    hide Named, SetSegment, WriteHosts, Writes, HostNames, WantedNames, FirstDuplicate;
    var m := Named(s.segments, spec.name);
    if |m| == 1 && m[0].serviceType == "COMPUTE" {
      var w := FoundSegment(s.segments, spec.name);
      assert m == [m[0]];
      assert ValidHostIds(m[0].hosts, s.nextId);
      ReplaceSegment(s, m[0], Configured(m[0], spec), s.nextId);
    } else if m == [] {
      NoDuplicateMeansDistinct([]);
    }
  }

  lemma NamedAlone(m: Segment)
    ensures Named([m], m.name) == [m]
  {
    NamedSnoc([], m, m.name);
    assert [] + [m] == [m];
  }

  lemma UpdatedIsFailing(s: Store, spec: Spec)
    requires UpdatedBeforeFailing(s, spec)
    ensures Reconcile(s, spec, false).result.Err?
  {
    hide Named, SetSegment, WriteHosts, Writes, HostNames, WantedNames, FirstDuplicate;
  }

  /**
   For every specification with a host, a segment with that host twice and another recovery method: the run fails and
   the recovery method is changed all the same.
   */
  lemma DuplicateHostsExample(spec: Spec) returns (s: Store)
    requires ValidHosts(spec.hosts) && spec.hosts != []
    ensures ValidStore(s) && UpdatedBeforeFailing(s, spec)
    ensures Reconcile(s, spec, false).result.Err? && Reconcile(s, spec, false).store != s
  {
    var host := spec.hosts[0];
    var hosts := [Host(1, "COMPUTE", host), Host(2, "COMPUTE", host)];
    hide Reconcile, Named;
    var recovery := if spec.recovery == "auto" then "reserved_host" else "auto";
    var m := Segment(0, spec.name, "COMPUTE", recovery, spec.description, hosts);
    s := Store([m], 3);
    NamedAlone(m);
    NoDuplicateMeansDistinct(hosts);
    assert hosts[0].attrs.name == hosts[1].attrs.name;
    UpdatedIsFailing(s, spec);
    FailureKeepsStoreExactly(s, spec);
  }
}
