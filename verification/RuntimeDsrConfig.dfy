/**
 The runtime configuration (src/control/RuntimeDsrConfig.cpp): loading after the file was read,
 comparison, and what the control loop derives from it, probe targets and snapshots.
 */
module RuntimeDsrConfig {
  import opened Common
  import opened RuntimeSchema
  import opened DsrConfig
  import opened ProbeHealth
  import opened ProbeRound
  import ProbeNonce
  import opened UdpProbeChecker
  import opened SnapshotMaps

  datatype RuntimeTargetText = RuntimeTargetText(id: string, egress: string, destinationMac: string, probeEndpoint: string)
  datatype RuntimeTarget = RuntimeTarget(id: string, egress: string, backend: Backend, probeAddress: Address, probePort: Port)
  datatype RuntimeDsrConfiguration = RuntimeDsrConfiguration(vipAddress: Address, vipPort: Port, targets: seq<RuntimeTarget>)

  // ---- Entries ----

  predicate IdCharacter(c: char) {
    'A' <= c <= 'Z' || 'a' <= c <= 'z' || '0' <= c <= '9' || c == '_' || c == '-'
  }

  predicate ValidId(id: string) {
    id != "" && |id| <= 32 && forall i :: 0 <= i < |id| ==> IdCharacter(id[i])
  }

  ghost predicate LiteralOk(t: RuntimeTargetText, env: Environment) {
    ValidId(t.id) && UsableName(t.egress) && MacOf(t.destinationMac).Some? && ParseEndpoint(t.probeEndpoint, env.pton).Some?
  }

  // validateRuntimeTargetLiteral.
  method ValidateRuntimeTargetLiteral(t: RuntimeTargetText, env: Environment) returns (ok: bool)
    ensures ok <==> LiteralOk(t, env)
  {
    if !ValidId(t.id) || !UsableName(t.egress) {
      return false;
    }
    ok := ValidMacLiteral(t.destinationMac);
    if ok {
      ok := ParseEndpoint(t.probeEndpoint, env.pton).Some?;
    }
  }

  // What the parsed text guarantees of its entries.
  ghost predicate Parsed(entries: seq<RuntimeTargetText>, env: Environment) {
    && |entries| <= MAX_BACKENDS
    && (forall i :: 0 <= i < |entries| ==> LiteralOk(entries[i], env))
    && forall i, j :: 0 <= i < j < |entries| ==> entries[i].id != entries[j].id
  }

  // The end of parseRuntimeConfigText: every entry is checked, and ids do not repeat.
  method CheckEntries(entries: seq<RuntimeTargetText>, env: Environment) returns (ok: bool)
    ensures ok <==> Parsed(entries, env)
  {
    hide LiteralOk;
    var ids: set<string> := {};
    for i := 0 to |entries|
      invariant ids == set j | 0 <= j < i :: entries[j].id
      invariant forall j :: 0 <= j < i ==> LiteralOk(entries[j], env)
      invariant forall j, k :: 0 <= j < k < i ==> entries[j].id != entries[k].id
    {
      var good := ValidateRuntimeTargetLiteral(entries[i], env);
      if !good || entries[i].id in ids {
        return false;
      }
      ids := ids + {entries[i].id};
    }
    ok := |entries| <= MAX_BACKENDS;
  }

  function Link(entry: RuntimeTargetText): string {
    entry.egress + ['@'] + entry.destinationMac
  }

  // The joined literal means its own two halves again.
  lemma LinkMeans(entry: RuntimeTargetText, env: Environment)
    requires LiteralOk(entry, env)
    ensures var output := InspectInterface(entry.egress, env.devices);
            LinkOf(Link(entry), env) == if output == None then None
                                        else Some(Backend(output.value.index, MacOf(entry.destinationMac).value, output.value.mac))
  {
    hide MacOf;
    hide InspectInterface;
    var target := Link(entry);
    assert '@' !in entry.egress;
    SplitJoined(entry.egress, '@', entry.destinationMac);
    assert target[..|entry.egress|] == entry.egress && target[|entry.egress| + 1..] == entry.destinationMac;
  }

  // Target t of a loaded configuration stands for its entry.
  ghost predicate TargetOk(t: RuntimeTarget, entry: RuntimeTargetText, vip: Address, env: Environment) {
    && t.id == entry.id && t.egress == entry.egress
    && LinkOf(Link(entry), env) == Some(t.backend)
    && ParseEndpoint(entry.probeEndpoint, env.pton) == Some(Endpoint(t.probeAddress, t.probePort))
    && t.probeAddress != vip
  }

  ghost predicate SameProbe(a: RuntimeTarget, b: RuntimeTarget) {
    a.backend.ifindex == b.backend.ifindex && a.probeAddress == b.probeAddress && a.probePort == b.probePort
  }

  ghost predicate DistinctProbes(targets: seq<RuntimeTarget>) {
    forall i, j :: 0 <= i < j < |targets| ==> !SameProbe(targets[i], targets[j])
  }

  ghost function Backends(targets: seq<RuntimeTarget>): (r: seq<Backend>)
    ensures |r| == |targets| && forall i :: 0 <= i < |r| ==> r[i] == targets[i].backend
  {
    seq(|targets|, i requires 0 <= i < |targets| => targets[i].backend)
  }

  ghost function Links(entries: seq<RuntimeTargetText>): (r: seq<string>)
    ensures |r| == |entries| && forall i :: 0 <= i < |r| ==> r[i] == Link(entries[i])
  {
    seq(|entries|, i requires 0 <= i < |entries| => Link(entries[i]))
  }

  ghost function DsrPart(c: RuntimeDsrConfiguration): DsrConfiguration {
    DsrConfiguration(StaticConfig(STATIC_SCHEMA, |c.targets|, c.vipAddress, c.vipPort, 0), Backends(c.targets))
  }

  ghost predicate Loaded(c: RuntimeDsrConfiguration, entries: seq<RuntimeTargetText>, ingress: string, vip: string, env: Environment) {
    && |c.targets| == |entries|
    && Resolves(DsrPart(c), ingress, vip, Links(entries), env)
    && (forall i :: 0 <= i < |entries| ==> TargetOk(c.targets[i], entries[i], c.vipAddress, env))
    && DistinctProbes(c.targets)
  }

  ghost function Probes(targets: seq<RuntimeTarget>): set<(nat, Address, Port)> {
    set i | 0 <= i < |targets| :: (targets[i].backend.ifindex, targets[i].probeAddress, targets[i].probePort)
  }

  lemma ProbesExtend(targets: seq<RuntimeTarget>, t: RuntimeTarget)
    ensures Probes(targets + [t]) == Probes(targets) + {(t.backend.ifindex, t.probeAddress, t.probePort)}
    ensures (t.backend.ifindex, t.probeAddress, t.probePort) in Probes(targets) <==>
              exists i :: 0 <= i < |targets| && SameProbe(targets[i], t)
    ensures DistinctProbes(targets + [t]) <==> DistinctProbes(targets) && forall i :: 0 <= i < |targets| ==> !SameProbe(targets[i], t)
  {
    var c := targets + [t];
    assert forall i :: 0 <= i < |targets| ==> c[i] == targets[i];
    assert c[|targets|] == t;
  }

  lemma NoProbes()
    ensures Probes([]) == {} && DistinctProbes([])
  {
  }

  method JoinLinks(entries: seq<RuntimeTargetText>) returns (links: seq<string>)
    ensures links == Links(entries)
  {
    links := [];
    for i := 0 to |entries|
      invariant links == Links(entries)[..i]
    {
      links := links + [Link(entries[i])];
    }
  }

  // loadRuntimeConfig, once the file is read and its text parsed: it succeeds if and only if some
  // configuration stands for the entries, and returns that one.
  method LoadRuntimeConfig(entries: seq<RuntimeTargetText>, ingress: string, vip: string, env: Environment)
    returns (r: Option<RuntimeDsrConfiguration>)
    requires Parsed(entries, env)
    ensures r.Some? ==> Loaded(r.value, entries, ingress, vip, env)
    ensures r == None ==> forall c :: !Loaded(c, entries, ingress, vip, env)
  {
    hide LinkOf;
    hide Resolves;
    hide Probes;
    hide DistinctProbes;
    hide SameProbe;
    hide ParseEndpoint;
    hide UsableName;
    hide ValidId;
    hide ValidMac;
    hide MacOf;
    var links := JoinLinks(entries);
    var dsr := ParseDsrConfiguration(ingress, vip, links, env);
    if dsr == None {
      return None;
    }
    var address, port, backends := dsr.value.config.vipAddress, dsr.value.config.vipPort, dsr.value.backends;
    ResolvedParts(dsr.value, ingress, vip, links, env);
    var probes: set<(nat, Address, Port)> := {};
    var targets: seq<RuntimeTarget> := [];
    NoProbes();
    for i := 0 to |entries|
      invariant |targets| == i && DistinctProbes(targets) && probes == Probes(targets)
      invariant forall j :: 0 <= j < i ==> TargetOk(targets[j], entries[j], address, env) && targets[j].backend == backends[j]
    {
      assert LiteralOk(entries[i], env);
      var endpoint := ParseEndpoint(entries[i].probeEndpoint, env.pton).value;
      var t := RuntimeTarget(entries[i].id, entries[i].egress, backends[i], endpoint.address, endpoint.port);
      ProbesExtend(targets, t);
      if endpoint.address == address || (backends[i].ifindex, endpoint.address, endpoint.port) in probes {
        Refused(entries, ingress, vip, env, dsr.value, targets, t);
        return None;
      }
      probes, targets := probes + {(backends[i].ifindex, endpoint.address, endpoint.port)}, targets + [t];
    }
    var c := RuntimeDsrConfiguration(address, port, targets);
    assert Backends(targets) == backends;
    assert DsrPart(c) == dsr.value;
    r := Some(c);
  }

  // Entries stand for at most one configuration.
  lemma LoadedOne(c: RuntimeDsrConfiguration, d: RuntimeDsrConfiguration, entries: seq<RuntimeTargetText>, ingress: string,
                  vip: string, env: Environment)
    requires Loaded(c, entries, ingress, vip, env) && Loaded(d, entries, ingress, vip, env)
    ensures c == d
  {
    hide LinkOf;
    hide Resolves;
    hide ParseEndpoint;
    hide DistinctProbes;
    ResolvesOne(DsrPart(c), DsrPart(d), ingress, vip, Links(entries), env);
    forall i | 0 <= i < |entries|
      ensures c.targets[i] == d.targets[i]
    {
      assert TargetOk(c.targets[i], entries[i], c.vipAddress, env) && TargetOk(d.targets[i], entries[i], d.vipAddress, env);
    }
    assert c.targets == d.targets;
  }

  lemma ResolvedParts(d: DsrConfiguration, ingress: string, vip: string, links: seq<string>, env: Environment)
    requires Resolves(d, ingress, vip, links, env)
    ensures |d.backends| == |links|
    ensures forall i :: 0 <= i < |links| ==> LinkOf(links[i], env) == Some(d.backends[i])
    ensures d.config == StaticConfig(STATIC_SCHEMA, |links|, d.config.vipAddress, d.config.vipPort, 0)
    ensures UnicastAddress(d.config.vipAddress) && d.config.vipPort != NO_PORT
    ensures forall b: int :: 0 <= b < |d.backends| ==> ValidMac(d.backends[b].sourceMac) && ValidMac(d.backends[b].destinationMac)
  {
    hide LinkOf;
    hide ParseEndpoint;
    hide UnicastAddress;
    hide ValidMac;
    forall i | 0 <= i < |links|
      ensures LinkOf(links[i], env) == Some(d.backends[i])
    {
      assert BackendOk(d.backends[i], links[i], ingress, env);
    }
  }

  // The first entry that breaks a rule breaks it in every candidate.
  lemma Refused(entries: seq<RuntimeTargetText>, ingress: string, vip: string, env: Environment,
                d: DsrConfiguration, targets: seq<RuntimeTarget>, t: RuntimeTarget)
    requires Resolves(d, ingress, vip, Links(entries), env)
    requires |targets| < |entries| && |d.backends| == |entries|
    requires forall j :: 0 <= j < |targets| ==>
               TargetOk(targets[j], entries[j], d.config.vipAddress, env) && targets[j].backend == d.backends[j]
    requires t.backend == d.backends[|targets|]
    requires ParseEndpoint(entries[|targets|].probeEndpoint, env.pton) == Some(Endpoint(t.probeAddress, t.probePort))
    requires t.probeAddress == d.config.vipAddress || exists i :: 0 <= i < |targets| && SameProbe(targets[i], t)
    ensures forall c :: !Loaded(c, entries, ingress, vip, env)
  {
    hide LinkOf;
    hide Resolves;
    hide ParseEndpoint;
    hide DistinctProbes;
    var k := |targets|;
    forall c: RuntimeDsrConfiguration
      ensures !Loaded(c, entries, ingress, vip, env)
    {
      if |c.targets| == |entries| && Resolves(DsrPart(c), ingress, vip, Links(entries), env) {
        ResolvesOne(DsrPart(c), d, ingress, vip, Links(entries), env);
        assert c.vipAddress == d.config.vipAddress && Backends(c.targets) == d.backends;
        assert c.targets[k].backend == d.backends[k];
        if TargetOk(c.targets[k], entries[k], c.vipAddress, env) {
          var i :| 0 <= i < |targets| && SameProbe(targets[i], t);
          assert c.targets[i].backend == d.backends[i];
          if TargetOk(c.targets[i], entries[i], c.vipAddress, env) {
            NotDistinct(c.targets, i, k);
          }
        }
      }
    }
  }

  lemma NotDistinct(targets: seq<RuntimeTarget>, i: nat, k: nat)
    requires i < k < |targets| && SameProbe(targets[i], targets[k])
    ensures !DistinctProbes(targets)
  {
  }

  // ---- Comparison ----

  predicate SameRuntimeTarget(a: RuntimeTarget, b: RuntimeTarget) {
    a.id == b.id && a.backend == b.backend && a.probeAddress == b.probeAddress && a.probePort == b.probePort
  }

  // sameRuntimeConfig, with the early exits of std::equal.
  method SameRuntimeConfig(a: RuntimeDsrConfiguration, b: RuntimeDsrConfiguration) returns (same: bool)
    ensures same <==> Equivalent(a, b)
  {
    if a.vipAddress != b.vipAddress || a.vipPort != b.vipPort || |a.targets| != |b.targets| {
      return false;
    }
    for i := 0 to |a.targets|
      invariant forall j :: 0 <= j < i ==> SameRuntimeTarget(a.targets[j], b.targets[j])
    {
      if !SameRuntimeTarget(a.targets[i], b.targets[i]) {
        return false;
      }
    }
    same := true;
  }

  ghost predicate Equivalent(a: RuntimeDsrConfiguration, b: RuntimeDsrConfiguration) {
    && a.vipAddress == b.vipAddress && a.vipPort == b.vipPort && |a.targets| == |b.targets|
    && forall i :: 0 <= i < |a.targets| ==> SameRuntimeTarget(a.targets[i], b.targets[i])
  }

  // ---- Probe targets ----

  function Number(bytes: seq<Byte>): nat {
    ProbeNonce.FromBigEndian(bytes)
  }

  lemma {:induction false} NumberZero(bytes: seq<Byte>)
    ensures Number(bytes) == 0 <==> forall i :: 0 <= i < |bytes| ==> bytes[i] == 0
  {
    if bytes != [] {
      NumberZero(bytes[..|bytes| - 1]);
    }
  }

  lemma {:induction false} NumberInjective(a: seq<Byte>, b: seq<Byte>)
    requires |a| == |b| && Number(a) == Number(b)
    ensures a == b
  {
    if a != [] {
      NumberInjective(a[..|a| - 1], b[..|b| - 1]);
      assert a == a[..|a| - 1] + [a[|a| - 1]] && b == b[..|b| - 1] + [b[|b| - 1]];
    }
  }

  function ProbeTargetOf(t: RuntimeTarget): ProbeTarget {
    ProbeTarget(t.id, t.egress, t.backend.ifindex, t.backend.sourceMac, t.backend.destinationMac,
                Number(t.probeAddress), Number(t.probePort))
  }

  ghost function ProbeTargets(c: RuntimeDsrConfiguration): (r: seq<ProbeTarget>)
    ensures |r| == |c.targets| && forall i :: 0 <= i < |r| ==> r[i] == ProbeTargetOf(c.targets[i])
  {
    seq(|c.targets|, i requires 0 <= i < |c.targets| => ProbeTargetOf(c.targets[i]))
  }

  method BuildProbeTargets(c: RuntimeDsrConfiguration) returns (r: seq<ProbeTarget>)
    ensures r == ProbeTargets(c)
  {
    r := [];
    for i := 0 to |c.targets|
      invariant r == ProbeTargets(c)[..i]
    {
      r := r + [ProbeTargetOf(c.targets[i])];
    }
  }

  // A reload is called unchanged exactly when the service address and the identity of every probe
  // are; the name of an egress interface may differ.
  lemma UnchangedKeepsIdentities(a: RuntimeDsrConfiguration, b: RuntimeDsrConfiguration)
    ensures Equivalent(a, b) <==>
            a.vipAddress == b.vipAddress && a.vipPort == b.vipPort && |a.targets| == |b.targets|
            && forall i :: 0 <= i < |a.targets| ==> SameProbeIdentity(ProbeTargets(a)[i], ProbeTargets(b)[i])
  {
    hide Number;
    forall i | 0 <= i < |a.targets| && i < |b.targets|
      ensures SameRuntimeTarget(a.targets[i], b.targets[i]) <==> SameProbeIdentity(ProbeTargets(a)[i], ProbeTargets(b)[i])
    {
      var s, t := a.targets[i], b.targets[i];
      if Number(s.probeAddress) == Number(t.probeAddress) {
        NumberInjective(s.probeAddress, t.probeAddress);
      }
      if Number(s.probePort) == Number(t.probePort) {
        NumberInjective(s.probePort, t.probePort);
      }
    }
  }

  // Interface indexes are positive; then the constructor's own checks accept every loaded
  // configuration, so only sockets can keep a checker from being built.
  lemma LoadedTargetsAreGood(c: RuntimeDsrConfiguration, entries: seq<RuntimeTargetText>, ingress: string, vip: string, env: Environment)
    requires Parsed(entries, env) && Loaded(c, entries, ingress, vip, env)
    requires forall i :: 0 <= i < |c.targets| ==> c.targets[i].backend.ifindex != 0
    ensures GoodTargets(ProbeTargets(c))
  {
    hide LinkOf;
    hide Resolves;
    hide Number;
    hide MacOf;
    var ts := ProbeTargets(c);
    forall i | 0 <= i < |ts|
      ensures GoodTarget(ts[i])
    {
      assert TargetOk(c.targets[i], entries[i], c.vipAddress, env) && LiteralOk(entries[i], env);
      NonzeroNumbers(c.targets[i].probeAddress, c.targets[i].probePort);
    }
    forall i, j | 0 <= i < j < |ts|
      ensures ts[i].id != ts[j].id
    {
      assert TargetOk(c.targets[i], entries[i], c.vipAddress, env) && TargetOk(c.targets[j], entries[j], c.vipAddress, env);
    }
  }

  lemma NonzeroNumbers(a: Address, p: Port)
    ensures a != NO_ADDRESS ==> Number(a) != 0
    ensures p != NO_PORT ==> Number(p) != 0
  {
    NumberZero(a);
    NumberZero(p);
    if Number(a) == 0 {
      assert a == NO_ADDRESS;
    }
    if Number(p) == 0 {
      assert p == NO_PORT;
    }
  }

  // ---- Snapshots ----

  function BackendOf(t: ProbeTarget): Backend
    requires |t.sourceMac| == 6 && |t.destinationMac| == 6
  {
    Backend(t.ifindex, t.destinationMac, t.sourceMac)
  }

  ghost predicate MacsSized(ts: seq<ProbeTarget>) {
    forall i :: 0 <= i < |ts| ==> |ts[i].sourceMac| == 6 && |ts[i].destinationMac| == 6
  }

  // The snapshot of a pool: the given targets in order, then zero slots.
  ghost function SnapshotOf(address: Address, port: Port, healthy: seq<ProbeTarget>, generation: nat): (s: Snapshot)
    requires |healthy| <= MAX_BACKENDS && MacsSized(healthy)
    ensures |s.backends| == MAX_BACKENDS
  {
    Snapshot(RUNTIME_SCHEMA, |healthy|, generation, address, port, 0,
             seq(MAX_BACKENDS, i requires 0 <= i < MAX_BACKENDS => if i < |healthy| then BackendOf(healthy[i]) else EMPTY_BACKEND))
  }

  // The checker probes exactly the targets of the configuration.
  ghost predicate Matches(probes: seq<Probe>, c: RuntimeDsrConfiguration) {
    && |probes| == |c.targets|
    && forall i :: 0 <= i < |probes| ==> probes[i].snapshot.target == ProbeTargetOf(c.targets[i])
  }

  predicate IsHealthy(p: Probe) {
    p.snapshot.health.status == Healthy
  }

  // How many of these targets are healthy.
  ghost function HealthyCount(probes: seq<Probe>): nat {
    if probes == [] then 0
    else HealthyCount(probes[..|probes| - 1]) + if IsHealthy(probes[|probes| - 1]) then 1 else 0
  }

  // The slot of a healthy target is the number of healthy ones before it.
  ghost predicate TakesSlot(probes: seq<Probe>, i: nat, k: nat) {
    i < |probes| && IsHealthy(probes[i]) && k == HealthyCount(probes[..i])
  }

  ghost predicate SlotTaken(probes: seq<Probe>, k: nat) {
    exists i: nat :: TakesSlot(probes, i, k)
  }

  // The pool holds exactly the healthy targets: every one of them in one slot, with the addresses
  // of its configuration, in configuration order, and nothing else in any slot.
  ghost predicate ServesHealthy(s: Snapshot, c: RuntimeDsrConfiguration, probes: seq<Probe>) {
    && |probes| == |c.targets| && |s.backends| == MAX_BACKENDS && s.backendCount == HealthyCount(probes) <= MAX_BACKENDS
    && (forall i :: 0 <= i < |probes| && IsHealthy(probes[i]) ==>
          var slot := HealthyCount(probes[..i]);
          slot < s.backendCount
          && s.backends[slot].ifindex == c.targets[i].backend.ifindex
          && s.backends[slot].destinationMac == c.targets[i].backend.destinationMac
          && s.backends[slot].sourceMac == c.targets[i].backend.sourceMac)
    && (forall k :: 0 <= k < s.backendCount ==> SlotTaken(probes, k))
    && (forall k :: s.backendCount <= k < MAX_BACKENDS ==> s.backends[k] == EMPTY_BACKEND)
  }

  lemma {:induction false} HealthySlots(probes: seq<Probe>)
    ensures |HealthyTargets(probes)| == HealthyCount(probes) <= |probes|
    ensures forall i: nat, k: nat :: TakesSlot(probes, i, k) ==> k < HealthyCount(probes) && HealthyTargets(probes)[k] == probes[i].snapshot.target
    ensures forall k :: 0 <= k < HealthyCount(probes) ==> SlotTaken(probes, k)
  {
    hide HealthyCount;
    hide HealthyTargets;
    NoSlots();
    if probes != [] {
      var last := |probes| - 1;
      var before := probes[..last];
      HealthySlots(before);
      LastSlot(probes);
      forall i: nat, k: nat | TakesSlot(probes, i, k)
        ensures k < HealthyCount(probes) && HealthyTargets(probes)[k] == probes[i].snapshot.target
      {
        if i < last {
          SamePrefix(probes, i, k);
        }
      }
      forall k: nat | k < HealthyCount(probes)
        ensures SlotTaken(probes, k)
      {
        if k < HealthyCount(before) {
          assert SlotTaken(before, k);
          var i: nat :| TakesSlot(before, i, k);
          SamePrefix(probes, i, k);
        } else {
          assert TakesSlot(probes, last, k);
        }
      }
    }
  }

  lemma NoSlots()
    ensures HealthyCount([]) == 0 && HealthyTargets([]) == []
  {
  }

  lemma SamePrefix(probes: seq<Probe>, i: nat, k: nat)
    requires i < |probes| - 1
    ensures TakesSlot(probes[..|probes| - 1], i, k) <==> TakesSlot(probes, i, k)
  {
    assert probes[..|probes| - 1][..i] == probes[..i];
  }

  lemma LastSlot(probes: seq<Probe>)
    requires probes != []
    ensures var last := |probes| - 1;
            HealthyCount(probes) == HealthyCount(probes[..last]) + (if IsHealthy(probes[last]) then 1 else 0)
            && HealthyTargets(probes) == HealthyTargets(probes[..last]) + (if IsHealthy(probes[last]) then [probes[last].snapshot.target] else [])
            && forall k :: TakesSlot(probes, last, k) <==> IsHealthy(probes[last]) && k == HealthyCount(probes[..last])
  {
  }

  lemma AppliedServesHealthy(c: RuntimeDsrConfiguration, probes: seq<Probe>, generation: nat)
    requires Matches(probes, c) && |probes| <= MAX_BACKENDS
    ensures ServesHealthy(AppliedSnapshot(c, probes, generation), c, probes)
  {
    hide HealthyTargets;
    hide HealthyCount;
    hide Number;
    HealthySlots(probes);
    HealthyAreTargets(probes, c);
    assert forall i :: 0 <= i < |probes| && IsHealthy(probes[i]) ==> TakesSlot(probes, i, HealthyCount(probes[..i]));
  }

  // There is only one such pool.
  lemma PoolIsUnique(a: Snapshot, b: Snapshot, c: RuntimeDsrConfiguration, probes: seq<Probe>)
    requires ServesHealthy(a, c, probes) && ServesHealthy(b, c, probes)
    ensures a.backendCount == b.backendCount && a.backends == b.backends
  {
    hide HealthyCount;
    forall k | 0 <= k < MAX_BACKENDS
      ensures a.backends[k] == b.backends[k]
    {
      if k < a.backendCount {
        assert SlotTaken(probes, k);
        var i: nat :| TakesSlot(probes, i, k);
      }
    }
  }

  ghost function AppliedSnapshot(c: RuntimeDsrConfiguration, probes: seq<Probe>, generation: nat): Snapshot
    requires Matches(probes, c) && |probes| <= MAX_BACKENDS
  {
    HealthyAreTargets(probes, c);
    SnapshotOf(c.vipAddress, c.vipPort, HealthyTargets(probes), generation)
  }

  // A configured target that is healthy now.
  ghost predicate Configured(t: ProbeTarget, probes: seq<Probe>, c: RuntimeDsrConfiguration) {
    exists j :: 0 <= j < |probes| && j < |c.targets| && IsHealthy(probes[j]) && t == ProbeTargetOf(c.targets[j])
  }

  lemma HealthyAreTargets(probes: seq<Probe>, c: RuntimeDsrConfiguration)
    requires Matches(probes, c)
    ensures |HealthyTargets(probes)| <= |probes| && MacsSized(HealthyTargets(probes))
    ensures forall i :: 0 <= i < |HealthyTargets(probes)| ==> Configured(HealthyTargets(probes)[i], probes, c)
  {
    hide HealthyTargets;
    hide HealthyCount;
    hide Number;
    HealthySlots(probes);
    forall k | 0 <= k < |HealthyTargets(probes)|
      ensures Configured(HealthyTargets(probes)[k], probes, c)
    {
      assert SlotTaken(probes, k);
      var j: nat :| TakesSlot(probes, j, k);
      assert HealthyTargets(probes)[k] == ProbeTargetOf(c.targets[j]);
    }
  }

  // buildRuntimeSnapshot; its range check cannot fail.
  method BuildRuntimeSnapshot(c: RuntimeDsrConfiguration, checker: UdpProbeChecker, generation: nat) returns (s: Snapshot)
    requires checker.Valid() && Matches(checker.probes, c)
    ensures s == AppliedSnapshot(c, checker.probes, generation)
    ensures ServesHealthy(s, c, checker.probes) && s.vipAddress == c.vipAddress && s.vipPort == c.vipPort
  {
    hide ServesHealthy;
    hide HealthyTargets;
    AppliedServesHealthy(c, checker.probes, generation);
    var healthy := checker.CopyHealthyProbeTargets();
    HealthyAreTargets(checker.probes, c);
    var backends := seq(MAX_BACKENDS, _ => EMPTY_BACKEND);
    var count: nat := 0;
    for k := 0 to |healthy|
      invariant count == k <= MAX_BACKENDS && |backends| == MAX_BACKENDS
      invariant forall i :: 0 <= i < k ==> backends[i] == BackendOf(healthy[i])
      invariant forall i :: k <= i < MAX_BACKENDS ==> backends[i] == EMPTY_BACKEND
    {
      backends, count := backends[count := BackendOf(healthy[k])], count + 1;
    }
    s := Snapshot(RUNTIME_SCHEMA, count, generation, c.vipAddress, c.vipPort, 0, backends);
  }

  // A configuration all of whose snapshots are publishable.
  ghost predicate Publishable(c: RuntimeDsrConfiguration) {
    && c.vipAddress != NO_ADDRESS && c.vipPort != NO_PORT && |c.targets| <= MAX_BACKENDS
    && forall i :: 0 <= i < |c.targets| ==> UsableBackend(c.targets[i].backend)
  }

  // Whatever the health of its targets, the snapshot of a loaded configuration with a checker
  // passes the store's validation at the next generation.
  lemma LoadedIsPublishable(c: RuntimeDsrConfiguration, entries: seq<RuntimeTargetText>, ingress: string, vip: string, env: Environment)
    requires Parsed(entries, env) && Loaded(c, entries, ingress, vip, env) && GoodTargets(ProbeTargets(c))
    ensures Publishable(c)
  {
    hide LinkOf;
    hide Resolves;
    hide ValidMac;
    ResolvedParts(DsrPart(c), ingress, vip, Links(entries), env);
    forall i | 0 <= i < |c.targets|
      ensures UsableBackend(c.targets[i].backend)
    {
      assert GoodTarget(ProbeTargets(c)[i]);
      assert Backends(c.targets)[i] == c.targets[i].backend;
    }
  }

  lemma SnapshotIsValid(c: RuntimeDsrConfiguration, probes: seq<Probe>, g: nat)
    requires Publishable(c) && Matches(probes, c) && g < U64_MAX
    ensures ValidSnapshot(AppliedSnapshot(c, probes, g + 1), g)
  {
    hide UsableBackend;
    HealthyAreTargets(probes, c);
    var s, healthy := AppliedSnapshot(c, probes, g + 1), HealthyTargets(probes);
    forall i | 0 <= i < MAX_BACKENDS
      ensures SlotOk(s.backends[i], i, s.backendCount)
    {
      if i < |healthy| {
        assert Configured(healthy[i], probes, c);
        var j :| 0 <= j < |probes| && j < |c.targets| && IsHealthy(probes[j]) && healthy[i] == ProbeTargetOf(c.targets[j]);
        assert s.backends[i] == c.targets[j].backend;
      }
    }
  }
}
