/** When a run of the segment reconciler succeeds, and that its report is what it did. */
module MasakariReport {
  import opened Common
  import opened MasakariSegment

  /** The wanted hosts for which a search finds something else than before. */
  ghost function ChangedHosts(before: seq<Host>, after: seq<Host>, desired: seq<HostSpec>): set<HostSpec> {
    set d | d in desired && HostNamed(after, d.name) != HostNamed(before, d.name)
  }

  ghost function NeedingWrite(existing: seq<Host>, desired: seq<HostSpec>): set<HostSpec> {
    set d | d in desired && NeedsWrite(existing, d)
  }

  lemma {:induction false} WritesCount(existing: seq<Host>, desired: seq<HostSpec>)
    requires ValidHosts(desired)
    ensures Writes(existing, desired) == |NeedingWrite(existing, desired)|
  {
    hide NeedsWrite;
    if desired != [] {
      var before, d := desired[..|desired| - 1], desired[|desired| - 1];
      WritesCount(existing, before);
      assert desired == before + [d];
      assert d !in before;
      if NeedsWrite(existing, d) {
        assert NeedingWrite(existing, desired) == NeedingWrite(existing, before) + {d};
      } else {
        assert NeedingWrite(existing, desired) == NeedingWrite(existing, before);
      }
    } else {
      assert NeedingWrite(existing, desired) == {};
    }
  }

  /** A run over the hosts counts exactly the wanted hosts that it creates or updates. */
  lemma {:induction false} HostRunCounts(existing: seq<Host>, nextId: nat, desired: seq<HostSpec>)
    requires ValidHostIds(existing, nextId) && FirstDuplicate(existing).None? && ValidHosts(desired)
    ensures Writes(existing, desired) ==
            |ChangedHosts(existing, WriteHosts(existing, desired, HostsRun(existing, nextId)).hosts, desired)|
  {
    hide HostNamed, WriteHosts, Writes, FirstDuplicate;
    NoDuplicateMeansDistinct(existing);
    WriteHostsDone(existing, nextId, desired);
    WritesCount(existing, desired);
    var after := WriteHosts(existing, desired, HostsRun(existing, nextId)).hosts;
    assert ChangedHosts(existing, after, desired) == NeedingWrite(existing, desired);
  }

  /** A run succeeds, in check mode and for real, exactly when there is at most one segment of the name, and that one is
      for compute hosts and has no two hosts of one name. */
  ghost predicate Ready(s: Store, spec: Spec) {
    var m := Named(s.segments, spec.name);
    m == [] || (|m| == 1 && m[0].serviceType == "COMPUTE" && FirstDuplicate(m[0].hosts).None?)
  }

  lemma {:induction false} SucceedsExactlyWhenReady(s: Store, spec: Spec, check: bool)
    ensures Reconcile(s, spec, check).result.Ok? <==> Ready(s, spec)
    ensures Reconcile(s, spec, check).result == Err(AmbiguousSegment) <==> |Named(s.segments, spec.name)| > 1
    ensures Reconcile(s, spec, check).result == Err(ForeignServiceType) <==>
            |Named(s.segments, spec.name)| == 1 && Named(s.segments, spec.name)[0].serviceType != "COMPUTE"
    ensures check && Ready(s, spec) ==>
              Reconcile(s, spec, check).result.value.segmentId == (
                if Named(s.segments, spec.name) == [] then None else Some(Named(s.segments, spec.name)[0].id))
  {
    hide Named, SetSegment, WriteHosts, Writes, HostNames, WantedNames;
  }

  /** The report of a run names the segment in the store, and says truly whether and how much was changed. */
  ghost predicate Reported(s: Store, s': Store, spec: Spec, report: Report) {
    && (report.changed <==> s' != s)
    && report.hostsChanged == |ChangedHosts(HostsOf(s, spec.name), HostsOf(s', spec.name), spec.hosts)|
    && |Named(s'.segments, spec.name)| == 1 && report.segmentId == Some(Named(s'.segments, spec.name)[0].id)
  }

  lemma {:induction false} ExistingReported(s: Store, m: Segment, spec: Spec, created: bool)
    requires ValidStore(s) && ValidHosts(spec.hosts) && Named(s.segments, spec.name) == [m]
    requires m.name == spec.name && ReconcileExisting(s, m, spec, false, created).result.Ok?
    ensures var run := ReconcileExisting(s, m, spec, false, created);
      && (run.result.value.changed <==> created || run.store != s)
      && run.result.value.hostsChanged == |ChangedHosts(m.hosts, HostsOf(run.store, spec.name), spec.hosts)|
      && |Named(run.store.segments, spec.name)| == 1
      && run.result.value.segmentId == Some(Named(run.store.segments, spec.name)[0].id)
      && |run.store.segments| == |s.segments|
  {
    hide Named, SetSegment, HostNamed, WriteHosts, Writes, FirstDuplicate, HostNames, WantedNames, ChangedHosts;
    var w := FoundSegment(s.segments, spec.name);
    assert ValidHostIds(m.hosts, s.nextId);
    HostsAfterRun(m.hosts, s.nextId, spec.hosts);
    HostRunCounts(m.hosts, s.nextId, spec.hosts);
    var updated := Configured(m, spec);
    ReplaceSegment(s, m, updated, s.nextId);
    var hosts := WriteHosts(m.hosts, spec.hosts, HostsRun(m.hosts, s.nextId));
    var final := updated.(hosts := hosts.hosts);
    ReplaceSegment(s, m, final, hosts.nextId);
    SetSegmentTwice(s.segments, updated, final);
    var s' := ReconcileExisting(s, m, spec, false, created).store;
    assert s'.segments == SetSegment(s.segments, final);
    if hosts.hosts == m.hosts {
      NothingChanged(m.hosts, spec.hosts);
    }
    if updated == m && Writes(m.hosts, spec.hosts) == 0 {
      assert s' == s;
    }
  }

  lemma NothingChanged(hosts: seq<Host>, desired: seq<HostSpec>)
    ensures ChangedHosts(hosts, hosts, desired) == {}
  {
  }

  /** A successful run reports a change exactly when it made one, and counts exactly the hosts that it wrote. */
  lemma {:induction false} RunIsReported(s: Store, spec: Spec)
    requires ValidStore(s) && ValidHosts(spec.hosts) && Reconcile(s, spec, false).result.Ok?
    ensures var run := Reconcile(s, spec, false); Reported(s, run.store, spec, run.result.value)
  {
    hide Named, SetSegment, HostNamed, WriteHosts, Writes, FirstDuplicate, HostNames, WantedNames;
    hide ReconcileExisting, ChangedHosts;
    var m := Named(s.segments, spec.name);
    if m != [] {
      var w := FoundSegment(s.segments, spec.name);
      assert m == [m[0]];
      ExistingReported(s, m[0], spec, false);
    } else {
      var x := NewSegment(s.nextId, spec);
      NamedSnoc(s.segments, x, spec.name);
      assert [] + [x] == [x];
      ValidAfterCreate(s, x);
      ExistingReported(Store(s.segments + [x], s.nextId + 1), x, spec, true);
    }
  }
}
