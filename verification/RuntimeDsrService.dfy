/**
 The control loop of the runtime mode (src/control/RuntimeDsrService.cpp). It holds three things
 that must agree, configuration, checker and applied snapshot, and must keep them in agreement
 with the kernel whatever fails.
 */
module RuntimeDsrService {
  import opened Common
  import opened RuntimeSchema
  import opened DsrConfig
  import opened ProbeHealth
  import opened ProbeRound
  import ProbeNonce
  import opened ProbeLog
  import opened UdpProbeChecker
  import opened SnapshotMaps
  import opened RuntimeMapStore
  import opened RuntimeDsrConfig

  const PUBLISH_INTERVAL: nat := 1_000_000_000

  datatype SignalBatch = Signals(reload: bool, stop: bool, brokenPipe: bool) | SignalFailure
  datatype ConfigFile = ConfigFile(entries: seq<RuntimeTargetText>, env: Environment)
  datatype Sockets = Sockets(handles: seq<int>, sends: map<int, seq<IoResult>>, incoming: map<int, seq<Arrival>>)

  // How a part of the loop ends: go on, leave on a stop signal, or leave with an exception.
  datatype Flow = Continue | Stopped | Fatal

  // Some line from number `start` on answers a reload request.
  ghost predicate Answered(lines: seq<Line>, start: nat) {
    exists i :: start <= i < |lines| && (lines[i] == ReloadUnchanged || lines[i] == ReloadApplied || lines[i] == ReloadRejected)
  }

  // What the service tells its operator.
  datatype Line = Ready | HealthChanged(transition: Transition) | PublishApplied(reload: bool) | PublishFailed(reload: bool)
                | ReloadUnchanged | ReloadApplied | ReloadRejected | Statistics | Detached

  // How a reload that lets the loop continue came out.
  datatype ReloadEnd = Unchanged | Refused | Unpublished | Adopted

  /** Clock, signals, output, files and sockets, as finite scripts. */
  class ServiceHost {
    var now: nat
    var ticks: seq<nat>
    var signals: seq<SignalBatch>
    var outputs: seq<bool>                 // false: RuntimeControlError from the output queue
    var files: seq<Option<ConfigFile>>     // None: the file cannot be read or its text is refused
    var sockets: seq<Sockets>
    var waits: seq<bool>
    var detaches: seq<bool>
    ghost var failedDetaches: nat
    ghost var doneDetaches: nat            // detaches the kernel carried out
    ghost var rests: nat                   // waits for signals or output
    ghost var lines: seq<Line>             // the output so far
    ghost var controlErrors: nat           // RuntimeControlErrors raised so far
    ghost var refusals: nat                // probe sockets that could not be opened
    ghost var probeFaults: nat             // probe sends and receives that end a checker
    ghost var stops: nat                   // signal batches with a stop
    ghost var reloads: nat                 // signal batches with a reload request

    constructor (ticks: seq<nat>, signals: seq<SignalBatch>, outputs: seq<bool>, files: seq<Option<ConfigFile>>,
                 sockets: seq<Sockets>, waits: seq<bool>, detaches: seq<bool>)
    {
      now, this.ticks, this.signals, this.outputs, this.files := 0, ticks, signals, outputs, files;
      this.sockets, this.waits, this.detaches := sockets, waits, detaches;
    }

    method Now() returns (t: nat)
      modifies this`now, this`ticks
      ensures t == now >= old(now)
    {
      if ticks != [] {
        now, ticks := now + ticks[0], ticks[1..];
      }
      t := now;
    }

    // The next batch of signals; the end of the script stops the service.
    function NextBatch(): SignalBatch
      reads this`signals
    {
      if signals == [] then Signals(false, true, false) else signals[0]
    }

    method ReadSignals() returns (r: SignalBatch)
      modifies this`signals, this`controlErrors, this`stops, this`reloads
      ensures r == old(NextBatch()) && stops == old(stops) + if r.Signals? && r.stop then 1 else 0
      ensures controlErrors == old(controlErrors) + if r.SignalFailure? then 1 else 0
      ensures |signals| < |old(signals)| || r == Signals(false, true, false)
      ensures |signals| <= |old(signals)|
      ensures reloads == old(reloads) + if r.Signals? && r.reload then 1 else 0
      ensures signals == if old(signals) == [] then [] else old(signals)[1..]
    {
      r := NextBatch();
      signals := if signals == [] then [] else signals[1..];
      reloads := reloads + if r.Signals? && r.reload then 1 else 0;
      stops := stops + if r.Signals? && r.stop then 1 else 0;
      if r.SignalFailure? {
        controlErrors := controlErrors + 1;
      }
    }

    // appendOutputLine, which also flushes.
    method Append(line: Line) returns (ok: bool)
      modifies this`outputs, this`lines, this`controlErrors
      ensures ok ==> lines == old(lines) + [line] && controlErrors == old(controlErrors)
      ensures !ok ==> lines == old(lines) && controlErrors == old(controlErrors) + 1
    {
      ok := Flush();
      if ok {
        lines := lines + [line];
      }
    }

    method Flush() returns (ok: bool)
      modifies this`outputs, this`controlErrors
      ensures controlErrors == old(controlErrors) + if ok then 0 else 1
    {
      ok := outputs == [] || outputs[0];
      if outputs != [] {
        outputs := outputs[1..];
      }
      controlErrors := controlErrors + if ok then 0 else 1;
    }

    // The configuration file as the next reload will find it.
    function NextFile(): Option<ConfigFile>
      reads this`files
    {
      if files == [] then None else files[0]
    }

    method ReadFile() returns (r: Option<ConfigFile>)
      modifies this`files
      ensures r == old(NextFile())
    {
      if files == [] {
        return None;
      }
      r, files := files[0], files[1..];
    }

    method NewTransport() returns (t: ProbeTransport)
      modifies this`sockets
      ensures fresh(t) && t.refused == 0
    {
      var s := Sockets([], map[], map[]);
      if sockets != [] {
        s, sockets := sockets[0], sockets[1..];
      }
      t := new ProbeTransport(s.handles, s.sends, s.incoming);
    }

    method Wait() returns (ok: bool)
      modifies this`waits, this`controlErrors, this`rests
      ensures controlErrors == old(controlErrors) + if ok then 0 else 1
      ensures rests == old(rests) + 1
    {
      ok, rests := waits == [] || waits[0], rests + 1;
      controlErrors := controlErrors + if ok then 0 else 1;
      if waits != [] {
        waits := waits[1..];
      }
    }

    method Detach() returns (ok: bool)
      modifies this`detaches, this`failedDetaches, this`doneDetaches
      ensures failedDetaches == old(failedDetaches) + if ok then 0 else 1
      ensures doneDetaches == old(doneDetaches) + if ok then 1 else 0
    {
      ok := detaches == [] || detaches[0];
      doneDetaches := doneDetaches + if ok then 1 else 0;
      failedDetaches := failedDetaches + if ok then 0 else 1;
      if detaches != [] {
        detaches := detaches[1..];
      }
    }
  }

  // Publications are attempted at least one second apart.
  ghost predicate Spaced(attempts: seq<nat>) {
    forall i, j :: 0 <= i < j < |attempts| ==> attempts[i] + PUBLISH_INTERVAL <= attempts[j]
  }

  lemma SpacedExtend(attempts: seq<nat>, t: nat)
    requires Spaced(attempts) && (attempts != [] ==> attempts[|attempts| - 1] + PUBLISH_INTERVAL <= t)
    ensures Spaced(attempts + [t])
  {
  }

  predicate HaveSameActiveTargets(a: Snapshot, b: Snapshot) {
    a.backendCount == b.backendCount && a.backends == b.backends
  }

  ghost function Snapshots(probes: seq<Probe>): seq<ProbeSnapshot> {
    seq(|probes|, i requires 0 <= i < |probes| => probes[i].snapshot)
  }

  // The file holds valid entries, and c is what they stand for.
  ghost predicate Offers(file: Option<ConfigFile>, ingress: string, vip: string, c: RuntimeDsrConfiguration) {
    file.Some? && Parsed(file.value.entries, file.value.env) && Loaded(c, file.value.entries, ingress, vip, file.value.env)
  }

  lemma OffersOne(file: Option<ConfigFile>, ingress: string, vip: string, c: RuntimeDsrConfiguration, d: RuntimeDsrConfiguration)
    requires Offers(file, ingress, vip, c) && Offers(file, ingress, vip, d)
    ensures c == d
  {
    LoadedOne(c, d, file.value.entries, ingress, vip, file.value.env);
  }

  lemma OneOffer(file: Option<ConfigFile>, ingress: string, vip: string, c: RuntimeDsrConfiguration, previous: seq<ProbeSnapshot>)
    requires Offers(file, ingress, vip, c)
    ensures !Buildable(c, previous) ==> forall d :: Offers(file, ingress, vip, d) ==> !Buildable(d, previous)
  {
    forall d | Offers(file, ingress, vip, d)
      ensures d == c
    {
      OffersOne(file, ingress, vip, d, c);
    }
  }

  // loadRuntimeConfig on the file as it is now; None is any of its exceptions.
  method LoadFile(host: ServiceHost, ingress: string, vip: string) returns (r: Option<RuntimeDsrConfiguration>)
    modifies host`files
    ensures r.Some? ==> Offers(old(host.NextFile()), ingress, vip, r.value)
    ensures r == None ==> forall c :: !Offers(old(host.NextFile()), ingress, vip, c)
    ensures r.Some? ==> |r.value.targets| <= MAX_BACKENDS && (GoodTargets(ProbeTargets(r.value)) ==> Publishable(r.value))
  {
    hide Loaded;
    hide Parsed;
    hide Publishable;
    hide GoodTargets;
    var file := host.ReadFile();
    if file == None {
      return None;
    }
    var ok := CheckEntries(file.value.entries, file.value.env);
    if !ok {
      return None;
    }
    r := LoadRuntimeConfig(file.value.entries, ingress, vip, file.value.env);
    if r.Some? {
      CandidateFacts(r.value, file.value, ingress, vip);
    }
  }

  // Nothing but the sockets can keep a checker for c from being built.
  ghost predicate Buildable(c: RuntimeDsrConfiguration, previous: seq<ProbeSnapshot>) {
    && GoodTargets(ProbeTargets(c))
    && forall i :: 0 <= i < |c.targets| ==> Importable(ImportedHealth(ProbeTargetOf(c.targets[i]), previous))
  }

  lemma CandidateFacts(c: RuntimeDsrConfiguration, file: ConfigFile, ingress: string, vip: string)
    requires Parsed(file.entries, file.env) && Loaded(c, file.entries, ingress, vip, file.env)
    ensures |c.targets| <= MAX_BACKENDS
    ensures GoodTargets(ProbeTargets(c)) ==> Publishable(c)
  {
    if GoodTargets(ProbeTargets(c)) {
      LoadedIsPublishable(c, file.entries, ingress, vip, file.env);
    }
  }

  // A checker in order, on the shared nonces, probing exactly the targets of a configuration.
  ghost predicate Checks(k: UdpProbeChecker, c: RuntimeDsrConfiguration, nonces: ProbeNonce.ProbeNonceSequence)
    reads k`probes, k`logs, k`imported, k`receiveCursor, k`lastReceiveEventCount, k`hasPolled, k`lastPollTime, k.nonces
  {
    && k.nonces == nonces && k.Valid() && k.Scheduled() && Matches(k.probes, c) && Publishable(c)
    && forall i :: 0 <= i < |k.probes| ==> 0 <= k.probes[i].handle
  }

  lemma CheckParts(k: UdpProbeChecker, c: RuntimeDsrConfiguration, nonces: ProbeNonce.ProbeNonceSequence)
    requires Checks(k, c, nonces)
    ensures k.Valid() && k.Scheduled() && Matches(k.probes, c) && |k.probes| <= MAX_BACKENDS && Publishable(c)
  {
  }

  // A new checker for c. Each target starts with the health its identity had in `previous`.
  method MakeChecker(host: ServiceHost, nonces: ProbeNonce.ProbeNonceSequence, c: RuntimeDsrConfiguration, previous: seq<ProbeSnapshot>)
    returns (k: UdpProbeChecker, ok: bool)
    requires nonces.Valid() && (GoodTargets(ProbeTargets(c)) ==> Publishable(c))
    modifies host`sockets, host`refusals
    ensures old(host.refusals) <= host.refusals
    ensures !ok ==> !Buildable(c, previous) || host.refusals > old(host.refusals)
    ensures fresh(k) && fresh(k.transport)
    ensures k.base == nonces.lastSequence && !k.hasPolled
    ensures ok ==> Checks(k, c, nonces) && |k.probes| == |c.targets|
    ensures ok ==> forall i :: 0 <= i < |k.probes| ==> k.probes[i].snapshot.health == ImportedHealth(ProbeTargetOf(c.targets[i]), previous)
  {
    hide ImportedHealth;
    hide GoodTargets;
    hide Publishable;
    var targets := BuildProbeTargets(c);
    var transport := host.NewTransport();
    k := new UdpProbeChecker.Empty(transport, nonces);
    ok := k.Populate(targets, previous);
    host.refusals := host.refusals + transport.refused;
  }

  ghost function HealthLines(ts: seq<Transition>): (lines: seq<Line>)
    ensures |lines| == |ts| && forall i :: 0 <= i < |ts| ==> lines[i] == HealthChanged(ts[i])
  {
    seq(|ts|, i requires 0 <= i < |ts| => HealthChanged(ts[i]))
  }

  // The lines tell exactly the changes of status from `before` to `after`.
  ghost predicate Announced(before: seq<Probe>, after: seq<Probe>, lines: seq<Line>) {
    exists ts :: Reported(before, after, ts) && lines == HealthLines(ts)
  }

  lemma AnnouncedBy(before: seq<Probe>, after: seq<Probe>, ts: seq<Transition>, lines: seq<Line>)
    requires Reported(before, after, ts) && lines == HealthLines(ts)
    ensures Announced(before, after, lines)
  {
    hide Reported;
  }

  class RuntimeDsrService {
    const store: RuntimeMapStore
    const host: ServiceHost
    const nonces: ProbeNonce.ProbeNonceSequence
    const ingress: string
    const vip: string
    var configuration: RuntimeDsrConfiguration
    var checker: UdpProbeChecker
    var applied: Snapshot
    var reload: bool
    var stop: bool
    var brokenPipe: bool
    var nextPublish: nat
    var attached: bool
    ghost var appliedProbes: seq<Probe>   // the probe states the applied snapshot was built from
    ghost var attempts: seq<nat>          // when publications were attempted
    ghost var retired: seq<seq<Event>>    // the logs of all checkers that were replaced

    // What holds even after a fatal error: the maps, and the pace of publications.
    ghost predicate Core()
      reads this`nextPublish, this`attempts, store`activeFd, store`generation, store.kernel`world, store.kernel`handles
    {
      && store.Valid() && Spaced(attempts) && store.generation <= |attempts| + 1
      && (attempts != [] ==> attempts[|attempts| - 1] + PUBLISH_INTERVAL <= nextPublish)
    }

    // The kernel serves the applied snapshot.
    ghost predicate KernelAgrees()
      reads this`applied, store`generation, store.kernel`world
    {
      && store.kernel.world.published != []
      && store.kernel.world.published[|store.kernel.world.published| - 1] == applied
      && applied.generation == store.generation
    }

    // The applied snapshot is the healthy part of the configuration, as the checker had it.
    ghost predicate AppliedFits(c: RuntimeDsrConfiguration, s: Snapshot, probes: seq<Probe>) {
      Matches(probes, c) && |probes| <= MAX_BACKENDS && s == AppliedSnapshot(c, probes, s.generation)
    }

    ghost predicate Agreement()
      reads this`configuration, this`checker, this`applied, this`appliedProbes, this`retired
      reads store`generation, store.kernel`world
      reads checker`probes, checker`logs, checker`imported, checker`receiveCursor, checker`lastReceiveEventCount
      reads checker`hasPolled, checker`lastPollTime, checker.nonces
    {
      && KernelAgrees() && Checks(checker, configuration, nonces) && AppliedFits(configuration, applied, appliedProbes)
      && Superseded(retired, checker.base)
    }

    lemma AgreementSeesKernel()
      requires Agreement()
      ensures KernelAgrees()
    {
    }

    // No packet of a replaced checker carries a number that the present one may use.
    ghost predicate Superseded(retired: seq<seq<Event>>, base: nat) {
      forall i :: 0 <= i < |retired| ==> SentUpTo(retired[i], base)
    }

    // So in every state between passes no success of the present checker, of any round, was
    // counted for a packet of any checker it replaced.
    lemma NoEchoOfReplaced(i: nat, e: nat, j: nat, f: nat)
      requires Agreement() && i < |checker.logs| && e < |checker.logs[i]| && checker.logs[i][e].Echo?
      requires j < |retired| && f < |retired[j]| && retired[j][f].Sent?
      ensures checker.logs[i][e].datagram != ProbeNonce.Encode(nonces.epoch, retired[j][f].number)
    {
      hide Publishable;
      hide ProbeNonce.Encode;
      assert checker.Logged(i, checker.probes[i]);
      assert SentUpTo(retired[j], checker.base);
      NoStaleEcho(checker.logs[i], nonces.epoch, checker.base, nonces.lastSequence, e, retired[j][f].number);
    }

    // A checker built now supersedes the present one and all before it.
    lemma Supersedes()
      requires Checks(checker, configuration, nonces) && Superseded(retired, checker.base)
      ensures Superseded(retired + checker.logs, nonces.lastSequence)
    {
      hide LogOk;
      hide Agrees;
      hide Matches;
      hide Publishable;
      var all := retired + checker.logs;
      forall i | 0 <= i < |all|
        ensures SentUpTo(all[i], nonces.lastSequence)
      {
        if i < |retired| {
          assert SentUpTo(retired[i], checker.base);
        } else {
          var n := i - |retired|;
          assert checker.Logged(n, checker.probes[n]);
          LogIsBounded(checker.logs[n], nonces.epoch, checker.base, nonces.lastSequence, nonces.lastSequence);
        }
      }
    }

    // The kernel serves exactly the targets that are healthy now.
    ghost predicate UpToDate()
      reads this`configuration, this`checker, this`applied, checker`probes
    {
      ServesHealthy(applied, configuration, checker.probes)
    }

    // A pool equal to one that serves the healthy targets serves them too.
    lemma SamePoolServes(s: Snapshot)
      requires HaveSameActiveTargets(s, applied) && ServesHealthy(s, configuration, checker.probes)
      ensures UpToDate()
    {
    }

    // A snapshot of the present pool fits.
    lemma Fits(c: RuntimeDsrConfiguration, s: Snapshot, probes: seq<Probe>)
      requires Matches(probes, c) && |probes| <= MAX_BACKENDS && s == AppliedSnapshot(c, probes, s.generation)
      ensures AppliedFits(c, s, probes)
    {
    }

    // The state right after start: the first snapshot is published, nothing was attempted since.
    constructor (store: RuntimeMapStore, host: ServiceHost, nonces: ProbeNonce.ProbeNonceSequence, ingress: string, vip: string,
                 configuration: RuntimeDsrConfiguration, checker: UdpProbeChecker, applied: Snapshot)
      requires store.Valid() && store.generation == 1 == applied.generation && nonces.Valid()
      requires store.kernel.world.published == [applied]
      requires Checks(checker, configuration, nonces) && Matches(checker.probes, configuration) && |checker.probes| <= MAX_BACKENDS
      requires applied == AppliedSnapshot(configuration, checker.probes, 1)
      ensures !checker.hasPolled ==> Timely()
      ensures Core() && Agreement() && attached && attempts == [] && !stop
      ensures this.store == store && this.host == host && this.nonces == nonces && this.checker == checker
      ensures this.ingress == ingress && this.vip == vip
      ensures nextPublish == host.now + PUBLISH_INTERVAL && !reload && !brokenPipe
    {
      this.store, this.host, this.nonces, this.ingress, this.vip := store, host, nonces, ingress, vip;
      this.configuration, this.checker, this.applied := configuration, checker, applied;
      reload, stop, brokenPipe, attached := false, false, false, true;
      nextPublish := host.now + PUBLISH_INTERVAL;
      appliedProbes, attempts, retired := checker.probes, [], [];
    }

    // consumeRuntimeSignals; false is a RuntimeControlError.
    method ConsumeRuntimeSignals() returns (ok: bool)
      modifies this`reload, this`stop, this`brokenPipe, host`signals, host`stops, host`reloads, host`controlErrors
      ensures host.controlErrors == old(host.controlErrors) + if ok then 0 else 1
      ensures old(reload) ==> reload
      ensures |host.signals| <= |old(host.signals)|
      ensures ok && !stop ==> |host.signals| < |old(host.signals)|
      ensures ok <==> old(host.NextBatch()).Signals?
      ensures ok ==> reload == (old(reload) || old(host.NextBatch()).reload) && stop == (old(stop) || old(host.NextBatch()).stop)
                     && brokenPipe == (old(brokenPipe) || old(host.NextBatch()).brokenPipe)
      ensures !ok ==> reload == old(reload) && stop == old(stop) && brokenPipe == old(brokenPipe)
      ensures stop && !old(stop) ==> host.stops > old(host.stops)
      ensures host.stops >= old(host.stops)
      ensures host.reloads >= old(host.reloads) && (reload && !old(reload) ==> host.reloads > old(host.reloads))
      ensures host.signals == if old(host.signals) == [] then [] else old(host.signals)[1..]
    {
      var batch := host.ReadSignals();
      if batch.SignalFailure? {
        return false;
      }
      reload, stop, brokenPipe := reload || batch.reload, stop || batch.stop, brokenPipe || batch.brokenPipe;
      ok := true;
    }

    // One publication of a snapshot built for configuration c from checker k, at a time the pace
    // allows. The store never finds fault with the snapshot itself.
    method Publish(c: RuntimeDsrConfiguration, k: UdpProbeChecker, s: Snapshot) returns (result: Publication)
      requires Core() && KernelAgrees() && Checks(k, c, nonces)
      requires nextPublish <= host.now && applied.generation < U64_MAX
      requires s == AppliedSnapshot(c, k.probes, applied.generation + 1)
      modifies this`nextPublish, this`attempts, store, store.kernel, host`now, host`ticks
      ensures Core() && Later(old(store.kernel.world), store.kernel.world)
      ensures result != Rejected
      ensures host.now >= old(host.now) && nextPublish == host.now + PUBLISH_INTERVAL && attempts == old(attempts) + [host.now]
      ensures !Committed(result) ==> KernelAgrees() && store.generation == old(store.generation)
      ensures !Committed(result) ==> store.kernel.world.published == old(store.kernel.world.published)
      ensures Committed(result) ==> store.kernel.world.published == old(store.kernel.world.published) + [s]
      ensures Committed(result) ==> store.generation == s.generation == old(store.generation) + 1
      ensures store.kernel.faults == old(store.kernel.faults) <==> result == Published
      ensures old(store.kernel.faults) <= store.kernel.faults
    {
      hide ValidSnapshot;
      hide Inv;
      hide Later;
      hide HealthyTargets;
      hide ServesHealthy;
      var now := host.Now();
      nextPublish := now + PUBLISH_INTERVAL;
      SpacedExtend(attempts, now);
      attempts := attempts + [now];
      SnapshotIsValid(c, k.probes, applied.generation);
      result := store.PublishSnapshot(s);
    }

    // A publication that is followed: when it is published, configuration, checker and snapshot
    // become the ones it was built from, and otherwise they stay.
    method PublishAndAdopt(c: RuntimeDsrConfiguration, k: UdpProbeChecker, s: Snapshot) returns (result: Publication)
      requires Core() && Agreement() && Checks(k, c, nonces)
      requires k == checker || k.base == nonces.lastSequence
      requires nextPublish <= host.now && applied.generation < U64_MAX
      requires Matches(k.probes, c) && |k.probes| <= MAX_BACKENDS && s == AppliedSnapshot(c, k.probes, applied.generation + 1)
      modifies this`configuration, this`checker, this`applied, this`appliedProbes, this`retired, this`nextPublish, this`attempts
      modifies store, store.kernel, host`now, host`ticks
      ensures Core() && Later(old(store.kernel.world), store.kernel.world)
      ensures host.now >= old(host.now) && result != Rejected
      ensures result != FailedAfterCommit ==> Agreement()
      ensures store.kernel.faults == old(store.kernel.faults) <==> result == Published
      ensures old(store.kernel.faults) <= store.kernel.faults
      ensures retired == if result == Published && k != old(checker) then old(retired) + old(checker.logs) else old(retired)
      ensures result == Failed ==> configuration == old(configuration) && checker == old(checker) && applied == old(applied)
      ensures result == Failed ==> store.generation == old(store.generation) && store.kernel.world.published == old(store.kernel.world.published)
      ensures result == Published ==> configuration == c && checker == k && applied == s
      ensures result == Published ==> store.generation == old(store.generation) + 1 && store.kernel.world.published == old(store.kernel.world.published) + [s]
    {
      hide ValidSnapshot;
      hide Inv;
      hide Later;
      hide HealthyTargets;
      hide ServesHealthy;
      hide Publishable;
      hide Matches;
      hide Checks;
      hide AppliedFits;
      hide Spaced;
      hide RuntimeDsrService.Superseded;
      result := Publish(c, k, s);
      if result == Published {
        if k != checker {
          Supersedes();
          retired := retired + checker.logs;
        }
        configuration, checker, applied, appliedProbes := c, k, s, k.probes;
        Fits(c, s, k.probes);
      }
    }

    // What a reload and a change of health have in common: a last look at the signals, then the
    // publication.
    method PublishUnlessStopped(c: RuntimeDsrConfiguration, k: UdpProbeChecker, s: Snapshot) returns (flow: Flow, result: Publication)
      requires Core() && Agreement() && Checks(k, c, nonces) && !stop
      requires k == checker || k.base == nonces.lastSequence
      requires nextPublish <= host.now && applied.generation < U64_MAX
      requires Matches(k.probes, c) && |k.probes| <= MAX_BACKENDS && s == AppliedSnapshot(c, k.probes, applied.generation + 1)
      modifies this`configuration, this`checker, this`applied, this`appliedProbes, this`retired, this`nextPublish, this`attempts
      modifies this`reload, this`stop, this`brokenPipe, store, store.kernel
      modifies host`now, host`ticks, host`signals, host`stops, host`reloads, host`controlErrors
      ensures Core() && Later(old(store.kernel.world), store.kernel.world)
      ensures host.now >= old(host.now) && |host.signals| <= |old(host.signals)|
      ensures host.controlErrors >= old(host.controlErrors) && host.stops >= old(host.stops) && old(store.kernel.faults) <= store.kernel.faults
      ensures flow == Fatal ==> host.controlErrors > old(host.controlErrors) || store.kernel.faults > old(store.kernel.faults)
      ensures flow == Stopped ==> host.stops > old(host.stops) && KernelAgrees()
                                  && store.kernel.world.published == old(store.kernel.world.published)
      ensures flow == Continue ==> Agreement() && !stop && host.controlErrors == old(host.controlErrors)
      ensures flow == Continue ==> result == Published || result == Failed
      ensures flow == Continue && result == Failed ==>
                configuration == old(configuration) && checker == old(checker) && applied == old(applied) && retired == old(retired)
                && store.generation == old(store.generation) && store.kernel.world.published == old(store.kernel.world.published)
                && store.kernel.faults > old(store.kernel.faults)
      ensures flow == Continue && result == Published ==>
                configuration == c && checker == k && applied == s && store.generation == old(store.generation) + 1
                && store.kernel.world.published == old(store.kernel.world.published) + [s] && store.kernel.faults == old(store.kernel.faults)
                && retired == if k != old(checker) then old(retired) + old(checker.logs) else old(retired)
      ensures host.reloads >= old(host.reloads) && (reload && !old(reload) ==> host.reloads > old(host.reloads))
    {
      hide RuntimeDsrService.Superseded;
      hide ValidSnapshot;
      hide Inv;
      hide Later;
      hide HealthyTargets;
      hide ServesHealthy;
      hide Publishable;
      hide Matches;
      hide Checks;
      hide AppliedFits;
      hide Spaced;
      LaterSelf(store.kernel.world);
      result := Failed;
      var ok := ConsumeRuntimeSignals();
      if !ok {
        return Fatal, result;
      }
      if stop {
        return Stopped, result;
      }
      result := PublishAndAdopt(c, k, s);
      flow := if result == FailedAfterCommit then Fatal else Continue;
    }

    // The two lines after an attempt to publish a reload.
    method AppendTwo(first: Line, second: Line) returns (ok: bool)
      modifies host`outputs, host`lines, host`controlErrors
      ensures ok ==> host.lines == old(host.lines) + [first, second] && host.controlErrors == old(host.controlErrors)
      ensures !ok ==> host.controlErrors > old(host.controlErrors)
      ensures host.controlErrors >= old(host.controlErrors)
      ensures old(host.lines) <= host.lines
    {
      ok := host.Append(first);
      if ok {
        ok := host.Append(second);
      }
    }

    // What the operator reads after a reload is what happened, and why.
    ghost predicate Told(how: ReloadEnd, lines: seq<Line>) {
      lines == match how
               case Unchanged => [ReloadUnchanged]
               case Refused => [ReloadRejected]
               case Unpublished => [PublishFailed(true), ReloadRejected]
               case Adopted => [PublishApplied(true), ReloadApplied]
    }

    lemma TellsTheEnd(how: ReloadEnd, before: seq<Line>, after: seq<Line>)
      requires before <= after && Told(how, after[|before|..])
      ensures Answered(after, |before|)
    {
      assert after[|after| - 1] == after[|before|..][|after| - |before| - 1];
    }

    // A reload request that is due. Continuing means agreement: either nothing was committed and
    // configuration, checker and snapshot are the ones from before, or the candidate in the file
    // was published and all three are the candidate's. Whatever fails after the commit is fatal,
    // and so is every failure of signals or output.
    method Reload() returns (flow: Flow, ghost how: ReloadEnd)
      requires Core() && Agreement() && Timely() && reload && !stop && nextPublish <= host.now
      modifies this`configuration, this`checker, this`applied, this`appliedProbes, this`retired, this`nextPublish, this`attempts
      modifies this`reload, this`stop, this`brokenPipe, store, store.kernel
      modifies host`now, host`ticks, host`signals, host`stops, host`reloads, host`outputs, host`files, host`sockets, host`lines, host`controlErrors, host`refusals
      ensures old(store.kernel.faults) <= store.kernel.faults
      ensures flow == Continue ==> if how == Adopted then UpToDate() else how == Unpublished || nextPublish == old(nextPublish)
      ensures Core() && Later(old(store.kernel.world), store.kernel.world)
      ensures host.now >= old(host.now) && |host.signals| <= |old(host.signals)|
      ensures flow == Continue ==> Agreement() && !stop && host.controlErrors == old(host.controlErrors)
      ensures flow == Continue ==> old(host.lines) <= host.lines && Told(how, host.lines[|old(host.lines)|..])
      ensures flow == Continue && how != Adopted ==>
                configuration == old(configuration) && checker == old(checker) && applied == old(applied)
                && store.generation == old(store.generation) && store.kernel.world.published == old(store.kernel.world.published)
      ensures flow == Continue && how == Adopted ==>
                Offers(old(host.NextFile()), ingress, vip, configuration) && !Equivalent(configuration, old(configuration))
                && applied == AppliedSnapshot(configuration, checker.probes, old(store.generation) + 1)
                && store.kernel.world.published == old(store.kernel.world.published) + [applied]
                && store.generation == old(store.generation) + 1 && store.kernel.faults == old(store.kernel.faults)
      ensures flow == Continue && how == Unchanged ==>
                exists c :: Offers(old(host.NextFile()), ingress, vip, c) && Equivalent(c, old(configuration))
      ensures flow == Continue && how == Refused && host.refusals == old(host.refusals) ==>
                forall c :: Offers(old(host.NextFile()), ingress, vip, c) ==> !Buildable(c, old(Snapshots(checker.probes)))
      ensures flow == Continue && how == Unpublished ==> store.kernel.faults > old(store.kernel.faults)
      ensures flow == Continue ==> retired == if how == Adopted then old(retired) + old(checker.logs) else old(retired)
      ensures flow == Continue && how == Adopted ==> checker.base == nonces.lastSequence
      ensures flow == Stopped ==> KernelAgrees() && store.kernel.world.published == old(store.kernel.world.published)
      ensures flow == Continue ==> checker == old(checker) || (fresh(checker) && fresh(checker.transport))
      ensures flow == Fatal ==> host.controlErrors > old(host.controlErrors) || store.kernel.faults > old(store.kernel.faults) || GenerationsSpent()
      ensures host.controlErrors >= old(host.controlErrors) && host.stops >= old(host.stops)
      ensures flow == Stopped ==> host.stops > old(host.stops)
      ensures flow == Continue ==> Timely()
      ensures host.reloads >= old(host.reloads) && (reload ==> host.reloads > old(host.reloads))
      ensures old(host.lines) <= host.lines
    {
      hide RuntimeDsrService.Superseded;
      hide ValidSnapshot;
      hide Inv;
      hide Later;
      hide HealthyTargets;
      hide ServesHealthy;
      hide Matches;
      hide Publishable;
      hide Equivalent;
      hide AppliedFits;
      hide Offers;
      hide Buildable;
      LaterSelf(store.kernel.world);
      reload := false;
      var candidate, k;
      candidate, k, flow, how := PrepareCandidate();
      if candidate == None || flow != Continue {
        return;
      }
      if applied.generation == U64_MAX {
        return Fatal, how;
      }
      flow, how := ReloadWith(candidate.value, k);
    }

    // Everything before the candidate snapshot is built. Without a candidate the reload is over
    // and the operator told why.
    method PrepareCandidate() returns (candidate: Option<RuntimeDsrConfiguration>, k: UdpProbeChecker, flow: Flow, ghost how: ReloadEnd)
      requires Checks(checker, configuration, nonces)
      modifies host`outputs, host`files, host`sockets, host`lines, host`controlErrors, host`refusals
      ensures flow != Stopped && old(host.refusals) <= host.refusals
      ensures flow == Continue ==> host.controlErrors == old(host.controlErrors)
      ensures candidate.Some? ==> k.base == nonces.lastSequence && !k.hasPolled
      ensures candidate.Some? ==> host.lines == old(host.lines) && Checks(k, candidate.value, nonces) && fresh(k) && fresh(k.transport)
      ensures candidate.Some? ==> Offers(old(host.NextFile()), ingress, vip, candidate.value) && !Equivalent(candidate.value, configuration)
      ensures flow == Continue && candidate == None ==> how == Refused || how == Unchanged
      ensures flow == Continue && candidate == None ==> old(host.lines) <= host.lines && Told(how, host.lines[|old(host.lines)|..])
      ensures flow == Continue && candidate == None && how == Unchanged ==>
                exists c :: Offers(old(host.NextFile()), ingress, vip, c) && Equivalent(c, configuration)
      ensures flow == Continue && candidate == None && how == Refused && host.refusals == old(host.refusals) ==>
                forall c :: Offers(old(host.NextFile()), ingress, vip, c) ==> !Buildable(c, Snapshots(checker.probes))
      ensures flow == Fatal ==> host.controlErrors > old(host.controlErrors)
      ensures host.controlErrors >= old(host.controlErrors)
      ensures old(host.lines) <= host.lines
    {
      hide Matches;
      hide Publishable;
      hide Equivalent;
      hide Offers;
      hide Buildable;
      flow, how, k := Continue, Refused, checker;
      candidate := LoadFile(host, ingress, vip);
      if candidate == None {
        var ok := host.Append(ReloadRejected);
        return None, k, if ok then Continue else Fatal, Refused;
      }
      var same := SameRuntimeConfig(candidate.value, configuration);
      if same {
        var ok := host.Append(ReloadUnchanged);
        return None, k, if ok then Continue else Fatal, Unchanged;
      }
      var previous := checker.CopyProbeSnapshots();
      assert previous == Snapshots(checker.probes);
      var built;
      k, built := MakeChecker(host, nonces, candidate.value, previous);
      if !built {
        OneOffer(old(host.NextFile()), ingress, vip, candidate.value, previous);
        var ok := host.Append(ReloadRejected);
        return None, k, if ok then Continue else Fatal, Refused;
      }
    }

    lemma LaterSelf(w: World)
      ensures Later(w, w)
    {
    }

    // The rest of a reload, with a candidate that differs and its checker.
    method ReloadWith(candidate: RuntimeDsrConfiguration, k: UdpProbeChecker) returns (flow: Flow, ghost how: ReloadEnd)
      requires Core() && Agreement() && !stop && nextPublish <= host.now && applied.generation < U64_MAX
      requires Checks(k, candidate, nonces) && k != checker && k.base == nonces.lastSequence
      modifies this`configuration, this`checker, this`applied, this`appliedProbes, this`retired, this`nextPublish, this`attempts
      modifies this`reload, this`stop, this`brokenPipe, store, store.kernel
      modifies host`now, host`ticks, host`signals, host`stops, host`reloads, host`outputs, host`lines, host`controlErrors
      ensures old(store.kernel.faults) <= store.kernel.faults
      ensures flow == Continue && how == Adopted ==> UpToDate()
      ensures Core() && Later(old(store.kernel.world), store.kernel.world)
      ensures host.now >= old(host.now) && |host.signals| <= |old(host.signals)|
      ensures flow == Continue ==> Agreement() && !stop && host.controlErrors == old(host.controlErrors)
      ensures flow == Continue ==> old(host.lines) <= host.lines && Told(how, host.lines[|old(host.lines)|..])
      ensures flow == Continue ==> how == Adopted || how == Unpublished
      ensures flow == Continue && how == Unpublished ==>
                configuration == old(configuration) && checker == old(checker) && applied == old(applied)
                && store.generation == old(store.generation) && store.kernel.world.published == old(store.kernel.world.published)
                && store.kernel.faults > old(store.kernel.faults)
      ensures flow == Continue && how == Adopted ==>
                configuration == candidate && checker == k
                && applied == AppliedSnapshot(configuration, checker.probes, old(store.generation) + 1)
                && store.kernel.world.published == old(store.kernel.world.published) + [applied]
                && store.generation == old(store.generation) + 1 && store.kernel.faults == old(store.kernel.faults)
      ensures flow == Continue ==> retired == if how == Adopted then old(retired) + old(checker.logs) else old(retired)
      ensures flow == Continue && how == Adopted ==> checker.base == nonces.lastSequence
      ensures flow == Stopped ==> KernelAgrees() && store.kernel.world.published == old(store.kernel.world.published)
      ensures flow == Fatal ==> host.controlErrors > old(host.controlErrors) || store.kernel.faults > old(store.kernel.faults)
      ensures host.controlErrors >= old(host.controlErrors) && host.stops >= old(host.stops)
      ensures flow == Stopped ==> host.stops > old(host.stops)
      ensures host.reloads >= old(host.reloads) && (reload && !old(reload) ==> host.reloads > old(host.reloads))
      ensures old(host.lines) <= host.lines
    {
      hide RuntimeDsrService.Superseded;
      hide ValidSnapshot;
      hide Inv;
      hide Later;
      hide HealthyTargets;
      hide ServesHealthy;
      hide Publishable;
      hide Matches;
      hide Checks;
      hide AppliedFits;
      hide Spaced;
      LaterSelf(store.kernel.world);
      CheckParts(k, candidate, nonces);
      how := Unpublished;
      var snapshot := BuildRuntimeSnapshot(candidate, k, applied.generation + 1);
      var result;
      flow, result := PublishUnlessStopped(candidate, k, snapshot);
      if flow != Continue {
        return;
      }
      var ok;
      if result == Published {
        how := Adopted;
        ok := AppendTwo(PublishApplied(true), ReloadApplied);
      } else {
        ok := AppendTwo(PublishFailed(true), ReloadRejected);
      }
      flow := if ok then Continue else Fatal;
    }

    // publishChangedHealthySnapshot. When it continues and the pace allowed a publication, the
    // kernel serves exactly the targets that are healthy now, unless the kernel failed.
    method PublishChangedHealthySnapshot() returns (flow: Flow)
      requires Core() && Agreement() && !stop
      modifies this`configuration, this`checker, this`applied, this`appliedProbes, this`retired, this`nextPublish, this`attempts
      modifies this`reload, this`stop, this`brokenPipe, store, store.kernel
      modifies host`now, host`ticks, host`signals, host`stops, host`reloads, host`outputs, host`lines, host`controlErrors
      ensures old(store.kernel.faults) <= store.kernel.faults
      ensures Core() && Later(old(store.kernel.world), store.kernel.world)
      ensures host.now >= old(host.now) && |host.signals| <= |old(host.signals)|
      ensures flow == Continue ==> Agreement() && !stop && configuration == old(configuration) && checker == old(checker)
      ensures flow == Continue && store.kernel.faults == old(store.kernel.faults) ==>
                old(UpToDate()) || old(nextPublish) <= old(host.now) ==> UpToDate()
      ensures flow == Continue ==> host.controlErrors == old(host.controlErrors)
      ensures flow == Continue && store.generation == old(store.generation) ==>
                applied == old(applied) && store.kernel.world.published == old(store.kernel.world.published)
                && (host.lines == old(host.lines)
                    || (host.lines == old(host.lines) + [PublishFailed(false)] && store.kernel.faults > old(store.kernel.faults)))
      ensures flow == Continue && store.generation != old(store.generation) ==>
                store.kernel.world.published == old(store.kernel.world.published) + [applied]
                && host.lines == old(host.lines) + [PublishApplied(false)] && store.kernel.faults == old(store.kernel.faults)
      ensures flow == Stopped ==> KernelAgrees() && store.kernel.world.published == old(store.kernel.world.published)
      ensures flow == Fatal ==> host.controlErrors > old(host.controlErrors) || store.kernel.faults > old(store.kernel.faults) || GenerationsSpent()
      ensures host.controlErrors >= old(host.controlErrors) && host.stops >= old(host.stops)
      ensures flow == Stopped ==> host.stops > old(host.stops)
      ensures old(UpToDate()) ==> store.kernel.world.published == old(store.kernel.world.published) && host.lines == old(host.lines)
                                  && nextPublish == old(nextPublish)
      ensures old(host.lines) <= host.lines
    {
      hide RuntimeDsrService.Superseded;
      hide ValidSnapshot;
      hide Inv;
      hide Later;
      hide HealthyTargets;
      hide ServesHealthy;
      hide Publishable;
      hide Matches;
      hide Checks;
      hide AppliedFits;
      hide Spaced;
      LaterSelf(store.kernel.world);
      flow := Continue;
      var now := host.Now();
      if now < nextPublish {
        return;
      }
      if applied.generation == U64_MAX {
        return Fatal;
      }
      CheckParts(checker, configuration, nonces);
      var snapshot := BuildRuntimeSnapshot(configuration, checker, applied.generation + 1);
      if UpToDate() {
        PoolIsUnique(snapshot, applied, configuration, checker.probes);
      }
      if HaveSameActiveTargets(snapshot, applied) {
        SamePoolServes(snapshot);
        return;
      }
      var result;
      flow, result := PublishUnlessStopped(configuration, checker, snapshot);
      if flow != Continue {
        return;
      }
      var ok := host.Append(if result == Published then PublishApplied(false) else PublishFailed(false));
      flow := if ok then Continue else Fatal;
    }

    // There is no generation after the applied one.
    predicate GenerationsSpent()
      reads this`applied
    {
      applied.generation == U64_MAX
    }

    // The checker was not polled in the future.
    ghost predicate Timely()
      reads this`checker, checker`hasPolled, checker`lastPollTime, host`now
    {
      checker.hasPolled ==> checker.lastPollTime <= host.now
    }

    lemma TimelyPoll()
      ensures Timely() <==> !(checker.hasPolled && host.now < checker.lastPollTime)
    {
    }

    lemma AllOpen(k: UdpProbeChecker, c: RuntimeDsrConfiguration)
      requires Checks(k, c, nonces)
      ensures !AnyClosed(k.probes)
    {
    }

    // pollProbeTransitions, and a line for each transition. A failure of the checker is fatal.
    method Poll(t: nat) returns (flow: Flow)
      requires Core() && Agreement() && Timely() && t == host.now
      modifies checker, nonces, checker.transport, host`outputs, host`lines, host`controlErrors, host`probeFaults
      ensures Core() && flow != Stopped
      ensures flow == Continue ==> host.controlErrors == old(host.controlErrors) && old(host.lines) <= host.lines
      ensures flow == Continue ==> checker.hasPolled && checker.lastPollTime == t
      ensures flow == Continue ==> Agreement() && forall i :: 0 <= i < |checker.probes| ==> Armed(checker.probes[i], t)
      ensures flow == Fatal ==> host.controlErrors > old(host.controlErrors) || host.probeFaults > old(host.probeFaults)
                                || nonces.lastSequence == U64_MAX
      ensures host.probeFaults == old(host.probeFaults) + checker.transport.faults - old(checker.transport.faults)
      ensures checker.transport.faults >= old(checker.transport.faults)
      ensures flow == Continue ==> host.probeFaults == old(host.probeFaults) && Timely()
      ensures host.controlErrors >= old(host.controlErrors)
      ensures flow == Continue ==> Announced(old(checker.probes), checker.probes, host.lines[|old(host.lines)|..])
      ensures old(host.lines) <= host.lines
    {
      hide Announced;
      hide RuntimeDsrService.Timely;
      hide RuntimeDsrService.Superseded;
      hide Matches;
      hide Publishable;
      hide AppliedFits;
      hide Armed;
      hide Reported;
      hide AfterPoll;
      hide Spaced;
      TimelyPoll();
      ghost var before, logs := checker.probes, checker.logs;
      var ts, ok;
      ghost var fates, tokens;
      AllOpen(checker, configuration);
      ts, ok, fates, tokens := checker.PollProbeTransitions(t);
      host.probeFaults := host.probeFaults + (checker.transport.faults - old(checker.transport.faults));
      if !ok {
        return Fatal;
      }
      TimelyPoll();
      StillMatches(before, checker.probes, logs, checker.logs, configuration);
      ok := AppendTransitions(ts);
      if ok {
        AnnouncedBy(before, checker.probes, ts, host.lines[|old(host.lines)|..]);
      }
      flow := if ok then Continue else Fatal;
    }

    // One line for each change of status, in order.
    method AppendTransitions(ts: seq<Transition>) returns (ok: bool)
      modifies host`outputs, host`lines, host`controlErrors
      ensures ok <==> host.controlErrors == old(host.controlErrors)
      ensures ok ==> host.lines == old(host.lines) + HealthLines(ts)
      ensures !ok ==> host.controlErrors > old(host.controlErrors)
      ensures old(host.lines) <= host.lines
    {
      ok := true;
      for i := 0 to |ts|
        invariant old(host.lines) <= host.lines
        invariant ok && host.controlErrors == old(host.controlErrors)
        invariant host.lines == old(host.lines) + HealthLines(ts)[..i]
      {
        ok := host.Append(HealthChanged(ts[i]));
        if !ok {
          return;
        }
      }
    }

    lemma StillMatches(before: seq<Probe>, after: seq<Probe>, logs: seq<seq<Event>>, newLogs: seq<seq<Event>>, c: RuntimeDsrConfiguration)
      requires Continues(before, after, logs, newLogs) && Matches(before, c)
      ensures Matches(after, c)
    {
    }

    // One pass of the loop. Whatever happened, continuing means agreement, and that a reload
    // request that was due has been answered; without kernel faults a pass in which a publication
    // was allowed leaves the kernel serving exactly the healthy targets.
    method Iterate() returns (flow: Flow)
      requires Core() && Agreement() && Timely() && !stop
      modifies this`configuration, this`checker, this`applied, this`appliedProbes, this`retired, this`nextPublish, this`attempts
      modifies this`reload, this`stop, this`brokenPipe, store, store.kernel, nonces, checker, checker.transport
      modifies host`now, host`ticks, host`signals, host`stops, host`reloads, host`outputs, host`waits, host`rests, host`files, host`sockets
      modifies host`lines, host`controlErrors, host`refusals, host`probeFaults
      ensures old(store.kernel.faults) <= store.kernel.faults
      ensures flow == Continue && old(nextPublish) <= old(host.now) && store.kernel.faults == old(store.kernel.faults) ==> UpToDate()
      ensures Core() && Later(old(store.kernel.world), store.kernel.world)
      ensures flow == Continue ==> Agreement() && !stop && |host.signals| < |old(host.signals)|
      ensures flow == Continue ==> host.controlErrors == old(host.controlErrors)
      ensures flow == Continue && old(reload) && old(nextPublish) <= old(host.now) ==> Answered(host.lines, |old(host.lines)|)
      ensures flow == Continue ==> checker == old(checker) || (fresh(checker) && fresh(checker.transport))
      ensures flow == Continue && checker == old(checker) ==> checker.hasPolled && old(host.now) <= checker.lastPollTime
      ensures flow == Stopped ==> KernelAgrees()
      ensures flow == Continue ==> Timely()
      ensures flow == Fatal ==> host.controlErrors > old(host.controlErrors) || store.kernel.faults > old(store.kernel.faults)
                                || host.probeFaults > old(host.probeFaults) || nonces.lastSequence == U64_MAX || GenerationsSpent()
      ensures flow == Stopped ==> host.stops > old(host.stops)
      ensures host.controlErrors >= old(host.controlErrors) && host.stops >= old(host.stops) && host.probeFaults >= old(host.probeFaults)
      ensures flow == Continue ==> |host.signals| + 2 <= |old(host.signals)| && host.rests == old(host.rests) + 1
      ensures old(host.NextBatch()).Signals? && old(host.NextBatch()).stop ==>
                flow == Stopped && host.lines == old(host.lines) && checker == old(checker) && checker.probes == old(checker.probes)
      ensures |old(host.signals)| >= 2 && old(host.signals)[1].Signals? && old(host.signals)[1].stop ==>
                flow != Continue && store.kernel.world.published == old(store.kernel.world.published)
      ensures old(host.lines) <= host.lines
    {
      hide RuntimeDsrService.Core;
      hide RuntimeDsrService.Agreement;
      hide RuntimeDsrService.KernelAgrees;
      hide RuntimeDsrService.Superseded;
      hide UpToDate;
      hide Inv;
      hide Later;
      hide Checks;
      hide AppliedFits;
      hide Spaced;
      hide Armed;
      hide HealthyTargets;
      hide ServesHealthy;
      hide Answered;
      LaterSelf(store.kernel.world);
      var ok := ConsumeRuntimeSignals();
      if !ok {
        return Fatal;
      }
      AgreementSeesKernel();
      if stop {
        return Stopped;
      }
      var now := host.Now();
      flow := Poll(now);
      if flow == Fatal {
        return;
      }
      flow := AfterProbes(now);
      AnswersStay(old(host.lines), host.lines);
    }

    lemma AnswersStay(earlier: seq<Line>, lines: seq<Line>)
      ensures forall start :: |earlier| <= start && Answered(lines, start) ==> Answered(lines, |earlier|)
    {
    }

    // A pass after the probes: a second look at the signals, then reload and health.
    method AfterProbes(now: nat) returns (flow: Flow)
      requires Core() && Agreement() && Timely() && !stop && now <= host.now
      modifies this`configuration, this`checker, this`applied, this`appliedProbes, this`retired, this`nextPublish, this`attempts
      modifies this`reload, this`stop, this`brokenPipe, store, store.kernel
      modifies host`now, host`ticks, host`signals, host`stops, host`reloads, host`outputs, host`waits, host`rests, host`files, host`sockets
      modifies host`lines, host`controlErrors, host`refusals
      ensures old(store.kernel.faults) <= store.kernel.faults
      ensures flow == Continue && old(nextPublish) <= old(host.now) && store.kernel.faults == old(store.kernel.faults) ==> UpToDate()
      ensures Core() && Later(old(store.kernel.world), store.kernel.world)
      ensures flow == Continue ==> |host.signals| < |old(host.signals)| && host.rests == old(host.rests) + 1
      ensures flow == Continue ==> Agreement() && !stop && host.controlErrors == old(host.controlErrors)
      ensures flow == Continue && old(reload) && old(nextPublish) <= now ==> Answered(host.lines, |old(host.lines)|)
      ensures flow == Continue ==> checker == old(checker) || (fresh(checker) && fresh(checker.transport))
      ensures flow == Stopped ==> KernelAgrees()
      ensures flow == Continue ==> Timely()
      ensures flow == Fatal ==> host.controlErrors > old(host.controlErrors) || store.kernel.faults > old(store.kernel.faults) || GenerationsSpent()
      ensures host.controlErrors >= old(host.controlErrors) && host.stops >= old(host.stops)
      ensures flow == Stopped ==> host.stops > old(host.stops)
      ensures old(host.NextBatch()).Signals? && old(host.NextBatch()).stop ==>
                flow == Stopped && store.kernel.world.published == old(store.kernel.world.published)
      ensures old(host.lines) <= host.lines
    {
      hide RuntimeDsrService.Core;
      hide RuntimeDsrService.Agreement;
      hide RuntimeDsrService.Superseded;
      hide UpToDate;
      hide Inv;
      hide Later;
      hide Checks;
      hide AppliedFits;
      hide Spaced;
      hide Armed;
      hide HealthyTargets;
      hide ServesHealthy;
      hide Answered;
      LaterSelf(store.kernel.world);
      var ok := ConsumeRuntimeSignals();
      if !ok {
        return Fatal;
      }
      AgreementSeesKernel();
      if stop {
        return Stopped;
      }
      flow := ReloadAndPublish(now);
    }

    // The second half of a pass: the reload, if it is due at `now`, then the health.
    method ReloadAndPublish(now: nat) returns (flow: Flow)
      requires Core() && Agreement() && Timely() && !stop && now <= host.now
      modifies this`configuration, this`checker, this`applied, this`appliedProbes, this`retired, this`nextPublish, this`attempts
      modifies this`reload, this`stop, this`brokenPipe, store, store.kernel
      modifies host`now, host`ticks, host`signals, host`stops, host`reloads, host`outputs, host`waits, host`rests, host`files, host`sockets
      modifies host`lines, host`controlErrors, host`refusals
      ensures old(store.kernel.faults) <= store.kernel.faults
      ensures flow == Continue && old(nextPublish) <= old(host.now) && store.kernel.faults == old(store.kernel.faults) ==> UpToDate()
      ensures Core() && Later(old(store.kernel.world), store.kernel.world) && |host.signals| <= |old(host.signals)|
      ensures flow == Continue ==> Agreement() && !stop && host.controlErrors == old(host.controlErrors)
      ensures flow == Continue && old(reload) && old(nextPublish) <= now ==> Answered(host.lines, |old(host.lines)|)
      ensures flow == Continue ==> checker == old(checker) || (fresh(checker) && fresh(checker.transport))
      ensures flow == Stopped ==> KernelAgrees()
      ensures flow == Continue ==> Timely()
      ensures flow == Fatal ==> host.controlErrors > old(host.controlErrors) || store.kernel.faults > old(store.kernel.faults) || GenerationsSpent()
      ensures host.controlErrors >= old(host.controlErrors) && host.stops >= old(host.stops)
      ensures flow == Stopped ==> host.stops > old(host.stops)
      ensures flow == Continue ==> host.rests == old(host.rests) + 1
      ensures old(host.lines) <= host.lines
    {
      hide RuntimeDsrService.Superseded;
      hide UpToDate;
      hide Inv;
      hide Later;
      hide Checks;
      hide AppliedFits;
      hide Spaced;
      hide HealthyTargets;
      hide ServesHealthy;
      hide Told;
      hide Equivalent;
      hide Offers;
      hide Buildable;
      LaterSelf(store.kernel.world);
      if reload && nextPublish <= now {
        ghost var how;
        flow, how := Reload();
        if flow != Continue {
          return;
        }
        TellsTheEnd(how, old(host.lines), host.lines);
      }
      ghost var middle := store.kernel.world;
      flow := PublishAndWait();
      LaterTrans(old(store.kernel.world), middle, store.kernel.world);
    }

    // The end of a pass.
    method PublishAndWait() returns (flow: Flow)
      requires Core() && Agreement() && !stop
      modifies this`configuration, this`checker, this`applied, this`appliedProbes, this`retired, this`nextPublish, this`attempts
      modifies this`reload, this`stop, this`brokenPipe, store, store.kernel
      modifies host`now, host`ticks, host`signals, host`stops, host`reloads, host`outputs, host`waits, host`rests, host`lines, host`controlErrors
      ensures old(store.kernel.faults) <= store.kernel.faults
      ensures flow == Continue && store.kernel.faults == old(store.kernel.faults) ==>
                old(UpToDate()) || old(nextPublish) <= old(host.now) ==> UpToDate()
      ensures Core() && Later(old(store.kernel.world), store.kernel.world)
      ensures |host.signals| <= |old(host.signals)|
      ensures flow == Continue ==> Agreement() && !stop && checker == old(checker)
      ensures flow == Continue ==> host.controlErrors == old(host.controlErrors) && old(host.lines) <= host.lines
      ensures flow == Stopped ==> KernelAgrees()
      ensures flow == Fatal ==> host.controlErrors > old(host.controlErrors) || store.kernel.faults > old(store.kernel.faults) || GenerationsSpent()
      ensures host.controlErrors >= old(host.controlErrors) && host.stops >= old(host.stops)
      ensures flow == Stopped ==> host.stops > old(host.stops)
      ensures host.now >= old(host.now)
      ensures flow == Continue ==> host.rests == old(host.rests) + 1
      ensures old(host.lines) <= host.lines
    {
      hide RuntimeDsrService.Superseded;
      hide *;
      flow := PublishChangedHealthySnapshot();
      if flow != Continue {
        return;
      }
      var ok := host.Flush();
      if ok {
        ok := host.Wait();
      }
      flow := if ok then Continue else Fatal;
    }

    // detachProgram, which does nothing once detached.
    method DetachProgram() returns (ok: bool)
      modifies this`attached, host`detaches, host`failedDetaches, host`doneDetaches
      ensures ok <==> !attached
      ensures attached ==> host.failedDetaches > old(host.failedDetaches)
      ensures host.failedDetaches >= old(host.failedDetaches)
      ensures host.doneDetaches == old(host.doneDetaches) + if old(attached) && ok then 1 else 0
      ensures !old(attached) ==> host.detaches == old(host.detaches) && host.failedDetaches == old(host.failedDetaches)
      ensures old(attached) && !ok ==> host.failedDetaches == old(host.failedDetaches) + 1
    {
      ok := true;
      if attached {
        ok := host.Detach();
        attached := !ok;
      }
    }

    // The orderly end: detach, statistics, output.
    method Finish() returns (exit: Exit)
      modifies this`attached, host`detaches, host`failedDetaches, host`doneDetaches, host`outputs, host`waits, host`rests, host`lines, host`controlErrors
      ensures exit != Threw ==> !attached && exit == Returned(if brokenPipe then 1 else 0)
      ensures attached ==> host.failedDetaches > old(host.failedDetaches)
      ensures exit == Threw ==> host.failedDetaches > old(host.failedDetaches) || host.controlErrors > old(host.controlErrors)
      ensures host.stops == old(host.stops)
      ensures exit != Threw ==> host.lines == old(host.lines) + [Statistics, Detached] && host.rests == old(host.rests) + 1
      ensures exit != Threw ==> host.doneDetaches == old(host.doneDetaches) + if old(attached) then 1 else 0
      ensures attached ==> host.failedDetaches == old(host.failedDetaches) + 2
      ensures old(host.lines) <= host.lines
    {
      var ok := DetachProgram();
      if ok {
        ok := AppendTwo(Statistics, Detached);
      }
      if ok {
        ok := host.Wait();
      }
      if ok {
        return Returned(if brokenPipe then 1 else 0);
      }
      ok := DetachProgram();
      exit := Threw;
    }

    // The loop and its end. On every way out packets have only ever seen complete published
    // snapshots, publications were paced, and the program is detached unless the kernel refused.
    // A return, as opposed to an exception, means that kernel and applied snapshot agreed to the
    // end.
    method Run() returns (exit: Exit)
      requires Core() && Agreement() && Timely() && !stop && attached
      modifies this, store, store.kernel, host, nonces, checker, checker.transport
      ensures Core() && Later(old(store.kernel.world), store.kernel.world)
      ensures exit != Threw ==> KernelAgrees() && !attached
      ensures attached ==> host.failedDetaches > old(host.failedDetaches)
      ensures exit == Threw ==> host.controlErrors > old(host.controlErrors) || store.kernel.faults > old(store.kernel.faults)
                                || host.probeFaults > old(host.probeFaults) || host.failedDetaches > old(host.failedDetaches)
                                || nonces.lastSequence == U64_MAX || GenerationsSpent()
      ensures exit != Threw ==> host.stops > old(host.stops)
      ensures exit != Threw ==> host.doneDetaches == old(host.doneDetaches) + 1
      ensures exit != Threw ==> |host.lines| >= 2 && host.lines[|host.lines| - 2..] == [Statistics, Detached]
      ensures old(host.lines) <= host.lines
    {
      hide RuntimeDsrService.Core;
      hide RuntimeDsrService.Agreement;
      hide RuntimeDsrService.Timely;
      hide UpToDate;
      hide RuntimeDsrService.Superseded;
      hide Inv;
      hide Later;
      hide Checks;
      hide AppliedFits;
      hide Spaced;
      LaterSelf(store.kernel.world);
      var flow := Continue;
      while flow == Continue
        invariant Core() && Later(old(store.kernel.world), store.kernel.world)
        invariant flow == Continue ==> Agreement() && !stop
        invariant flow == Stopped ==> KernelAgrees() && host.stops > old(host.stops)
        invariant flow == Continue ==> Timely()
        invariant flow == Fatal ==> host.controlErrors > old(host.controlErrors) || store.kernel.faults > old(store.kernel.faults)
                                    || host.probeFaults > old(host.probeFaults) || nonces.lastSequence == U64_MAX || GenerationsSpent()
        invariant host.stops >= old(host.stops) && host.controlErrors >= old(host.controlErrors)
        invariant store.kernel.faults >= old(store.kernel.faults) && host.probeFaults >= old(host.probeFaults)
        invariant checker == old(checker) || (fresh(checker) && fresh(checker.transport))
        invariant old(host.lines) <= host.lines
        invariant attached && host.failedDetaches == old(host.failedDetaches) && host.doneDetaches == old(host.doneDetaches)
        decreases if flow == Continue then 1 + |host.signals| else 0
      {
        ghost var before := store.kernel.world;
        flow := Iterate();
        LaterTrans(old(store.kernel.world), before, store.kernel.world);
        if flow != Continue {
          break;
        }
      }
      if flow == Stopped {
        exit := Finish();
      } else {
        var ok := DetachProgram();
        exit := Threw;
      }
    }
  }

  datatype Exit = Returned(code: nat) | Threw

  // The whole service, from the first load of the configuration on a store that has not published
  // anything. The program is attached only after the first snapshot is published. A regular exit
  // leaves kernel and applied snapshot in agreement and the program detached; without a service
  // nothing was ever attached.
  method RunRuntimeDsrControlLoop(store: RuntimeMapStore, host: ServiceHost, nonces: ProbeNonce.ProbeNonceSequence,
                                  ingress: string, vip: string)
    returns (exit: Exit, ghost service: RuntimeDsrService?)
    requires store.Valid() && store.generation == 0 && nonces.Valid()
    modifies store, store.kernel, host, nonces
    ensures store.Valid() && Later(old(store.kernel.world), store.kernel.world)
    ensures exit != Threw ==> service != null && service.KernelAgrees() && !service.attached
    ensures service != null ==> service.store == store && service.host == host && service.Core()
    ensures service != null && service.attached ==> host.failedDetaches > old(host.failedDetaches)
    ensures exit != Threw ==> host.stops > old(host.stops)
    ensures service == null && host.refusals == old(host.refusals) && store.kernel.faults == old(store.kernel.faults) ==>
              forall c :: Offers(old(host.NextFile()), ingress, vip, c) ==> !Buildable(c, [])
    ensures exit == Threw ==> service == null || host.controlErrors > old(host.controlErrors) || store.kernel.faults > old(store.kernel.faults)
                              || host.probeFaults > old(host.probeFaults) || host.failedDetaches > old(host.failedDetaches)
                              || nonces.lastSequence == U64_MAX || service.GenerationsSpent()
  {
    hide Buildable;
    hide Offers;
    hide Inv;
    hide Later;
    hide Checks;
    hide Publishable;
    hide GoodTargets;
    hide HealthyTargets;
    hide ServesHealthy;
    hide Matches;
    hide ImportedHealth;
    WorldLater(store.kernel.world);
    var configuration := LoadFile(host, ingress, vip);
    if configuration == None {
      return Threw, null;
    }
    var checker, ok := MakeChecker(host, nonces, configuration.value, []);
    if !ok {
      OneOffer(old(host.NextFile()), ingress, vip, configuration.value, []);
      return Threw, null;
    }
    exit, service := Launch(store, host, nonces, ingress, vip, configuration.value, checker);
  }

  lemma WorldLater(w: World)
    ensures Later(w, w)
  {
  }

  // The first publication, and the loop after it.
  method Launch(store: RuntimeMapStore, host: ServiceHost, nonces: ProbeNonce.ProbeNonceSequence, ingress: string, vip: string,
                configuration: RuntimeDsrConfiguration, checker: UdpProbeChecker)
    returns (exit: Exit, ghost service: RuntimeDsrService?)
    requires store.Valid() && store.generation == 0 && nonces.Valid() && Checks(checker, configuration, nonces) && !checker.hasPolled
    modifies store, store.kernel, host, nonces, checker, checker.transport
    ensures store.Valid() && Later(old(store.kernel.world), store.kernel.world)
    ensures exit != Threw ==> service != null && service.KernelAgrees() && !service.attached
    ensures service != null ==> service.store == store && service.host == host && service.Core()
    ensures service != null && service.attached ==> host.failedDetaches > old(host.failedDetaches)
    ensures exit != Threw ==> host.stops > old(host.stops)
    ensures service == null ==> store.kernel.faults > old(store.kernel.faults)
    ensures exit == Threw ==> service == null || host.controlErrors > old(host.controlErrors) || store.kernel.faults > old(store.kernel.faults)
                              || host.probeFaults > old(host.probeFaults) || host.failedDetaches > old(host.failedDetaches)
                              || nonces.lastSequence == U64_MAX || service.GenerationsSpent()
    ensures exit != Threw ==> |host.lines| > |old(host.lines)| && host.lines[|old(host.lines)|] == Ready
  {
    hide RuntimeDsrService.Agreement;
    hide Inv;
    hide Later;
    hide Publishable;
    hide HealthyTargets;
    hide ServesHealthy;
    hide ValidSnapshot;
    hide Matches;
    hide Checks;
    hide RuntimeDsrService.AppliedFits;
    CheckParts(checker, configuration, nonces);
    var applied := BuildRuntimeSnapshot(configuration, checker, 1);
    SnapshotIsValid(configuration, checker.probes, 0);
    NothingPublished(store);
    var result := store.PublishSnapshot(applied);
    assert result != Rejected;
    if result != Published {
      return Threw, null;
    }
    var s := new RuntimeDsrService(store, host, nonces, ingress, vip, configuration, checker, applied);
    service := s;
    var ok := host.Append(Ready);
    if !ok {
      ok := s.DetachProgram();
      return Threw, s;
    }
    ghost var middle := store.kernel.world;
    exit := s.Run();
    LaterTrans(old(store.kernel.world), middle, store.kernel.world);
  }

  lemma NothingPublished(store: RuntimeMapStore)
    requires store.Valid() && store.generation == 0
    ensures store.kernel.world.published == []
  {
  }
}
