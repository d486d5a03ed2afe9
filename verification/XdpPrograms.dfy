/**
 The two packet programs over the shared frame checks: the runtime program reads one snapshot,
 the static one a frozen configuration. Frame and counters are changed in place.
 */
module XdpPrograms {
  import opened Common
  import opened RuntimeSchema
  import opened XdpPacket

  // The per-CPU counters, in the order of UdpDsrStatsValue.
  const TOTAL: nat := 0
  const PASSED: nat := 1
  const REDIRECTS: nat := 2
  const DROPPED: nat := 3
  const UNSUPPORTED: nat := 4
  const NO_BACKEND: nat := 5
  const INVALID_CONFIG: nat := 6
  const HELPER_ERROR: nat := 7
  const COUNTERS: nat := 8

  datatype Action = Pass | Drop | Redirect
  datatype Exit = Unsupported | InvalidConfig | EmptyPool | HelperFailed | Redirected

  // The index both programs pick for a supported frame and a pool of `count`.
  ghost function PickedIndex(f: seq<Byte>, count: nat): (key: nat)
    requires Supported(f) && 0 < count
    ensures key < count
  {
    HashIndex(FlowHash(f), count)
  }

  ghost predicate ToVip(f: seq<Byte>, address: Address, port: Port)
    requires Supported(f)
  {
    f[30..34] == address && f[36..38] == port
  }

  // A snapshot the runtime program will use.
  predicate RuntimeReadable(s: Snapshot) {
    s.schemaVersion == RUNTIME_SCHEMA && s.backendCount <= MAX_BACKENDS && s.reserved == 0 && s.generation != 0
    && |s.backends| == MAX_BACKENDS
  }

  predicate StaticReadable(c: StaticConfig, backends: seq<Backend>) {
    c.schemaVersion == STATIC_SCHEMA && c.backendCount <= MAX_BACKENDS && c.reserved == 0
    && |backends| == MAX_BACKENDS
  }

  // Where a frame for a readable configuration with a pool of `count` leaves either program.
  ghost function PoolExit(f: seq<Byte>, address: Address, port: Port, count: nat, backends: seq<Backend>, helperOk: bool): Exit
    requires Supported(f) && count <= |backends|
  {
    if !ToVip(f, address, port) then Unsupported
    else if count == 0 then EmptyPool
    else if !UsableBackend(backends[PickedIndex(f, count)]) then InvalidConfig
    else if helperOk then Redirected else HelperFailed
  }

  ghost function RuntimeExit(f: seq<Byte>, config: Option<Snapshot>, helperOk: bool): Exit {
    if !Supported(f) then Unsupported
    else if config.None? || !RuntimeReadable(config.value) then InvalidConfig
    else PoolExit(f, config.value.vipAddress, config.value.vipPort, config.value.backendCount, config.value.backends, helperOk)
  }

  ghost function StaticExit(f: seq<Byte>, config: Option<StaticConfig>, backends: seq<Backend>, helperOk: bool): Exit {
    if !Supported(f) then Unsupported
    else if config.None? || !StaticReadable(config.value, backends) then InvalidConfig
    else PoolExit(f, config.value.vipAddress, config.value.vipPort, config.value.backendCount, backends, helperOk)
  }

  // Redirection rewrites the two MAC addresses; every other exit leaves the frame alone.
  ghost function FrameAfter(f: seq<Byte>, exit: Exit, count: nat, backends: seq<Backend>): seq<Byte> {
    if exit == Redirected && Supported(f) && 0 < count <= |backends|
    then backends[PickedIndex(f, count)].destinationMac + backends[PickedIndex(f, count)].sourceMac + f[12..]
    else f
  }

  // The frame g is f sent to the backend whose index is the flow hash modulo the pool size.
  ghost predicate SentByHash(f: seq<Byte>, g: seq<Byte>, count: nat, backends: seq<Backend>) {
    HEADERS <= |f| && exists k: nat ::
      k < count && k < |backends| && (exists q: nat :: FlowHash(f) == q * count + k)
      && UsableBackend(backends[k]) && g == backends[k].destinationMac + backends[k].sourceMac + f[12..]
  }

  lemma RedirectGoesByHash(f: seq<Byte>, address: Address, port: Port, count: nat, backends: seq<Backend>, helperOk: bool)
    requires Supported(f) && count <= |backends| && PoolExit(f, address, port, count, backends, helperOk) == Redirected
    ensures SentByHash(f, FrameAfter(f, Redirected, count, backends), count, backends)
  {
    hide FlowHash;
    hide UsableBackend;
    var k := PickedIndex(f, count);
    assert exists q: nat :: FlowHash(f) == q * count + k;
  }

  function RuntimeAction(exit: Exit): Action {
    match exit
    case Unsupported => Pass
    case InvalidConfig => Pass
    case EmptyPool => Drop
    case HelperFailed => Drop
    case Redirected => Redirect
  }

  function StaticAction(exit: Exit): Action {
    if exit == EmptyPool then Pass else RuntimeAction(exit)
  }

  // The counters an exit bumps besides the total: its reason, if any, and its action.
  function Reason(exit: Exit): nat {
    match exit
    case Unsupported => UNSUPPORTED
    case InvalidConfig => INVALID_CONFIG
    case EmptyPool => NO_BACKEND
    case HelperFailed => HELPER_ERROR
    case Redirected => REDIRECTS
  }

  function Tally(action: Action): nat {
    match action
    case Pass => PASSED
    case Drop => DROPPED
    case Redirect => REDIRECTS
  }

  // What the runtime program decides, in plain terms: k is the flow hash modulo the pool size.
  lemma RuntimeVerdict(f: seq<Byte>, s: Snapshot, helperOk: bool, k: nat, q: nat)
    requires Supported(f) && |s.backends| == MAX_BACKENDS
    requires 0 < s.backendCount ==> k < s.backendCount && FlowHash(f) == q * s.backendCount + k
    ensures var action, served := RuntimeAction(RuntimeExit(f, Some(s), helperOk)),
                                  s.schemaVersion == 3 && s.backendCount <= 64 && s.reserved == 0 && s.generation != 0
                                  && f[30..34] == s.vipAddress && f[36..38] == s.vipPort;
            && (action == Redirect <==> served && 0 < s.backendCount && UsableBackend(s.backends[k]) && helperOk)
            && (action == Drop <==> served && (s.backendCount == 0 || (UsableBackend(s.backends[k]) && !helperOk)))
    ensures RuntimeAction(RuntimeExit(f, None, helperOk)) == Pass
  {
    hide FlowHash;
    hide UsableBackend;
    if 0 < s.backendCount {
      SameRemainder(FlowHash(f), s.backendCount, PickedIndex(f, s.backendCount), k, q);
    }
  }

  // The same for the static program, which passes packets on when the pool is empty.
  lemma StaticVerdict(f: seq<Byte>, c: StaticConfig, backends: seq<Backend>, helperOk: bool, k: nat, q: nat)
    requires Supported(f) && |backends| == MAX_BACKENDS
    requires 0 < c.backendCount ==> k < c.backendCount && FlowHash(f) == q * c.backendCount + k
    ensures var action, served := StaticAction(StaticExit(f, Some(c), backends, helperOk)),
                                  c.schemaVersion == 2 && 0 < c.backendCount <= 64 && c.reserved == 0
                                  && f[30..34] == c.vipAddress && f[36..38] == c.vipPort && UsableBackend(backends[k]);
            && (action == Redirect <==> served && helperOk)
            && (action == Drop <==> served && !helperOk)
    ensures StaticAction(StaticExit(f, None, backends, helperOk)) == Pass
  {
    hide FlowHash;
    hide UsableBackend;
    if 0 < c.backendCount {
      SameRemainder(FlowHash(f), c.backendCount, PickedIndex(f, c.backendCount), k, q);
    }
  }

  // Division with remainder is unique.
  lemma SameRemainder(hash: nat, count: nat, a: nat, b: nat, q: nat)
    requires a < count && b < count && hash == q * count + b && exists p: nat :: hash == p * count + a
    ensures a == b
  {
    var p: nat :| hash == p * count + a;
    if p > q {
      Multiple(p, q, count);
    } else if q > p {
      Multiple(q, p, count);
    }
  }

  lemma {:induction false} Multiple(p: nat, q: nat, count: nat)
    requires p > q
    ensures p * count >= q * count + count
  {
    assert p * count == (p - 1) * count + count;
    if p - 1 > q {
      Multiple(p - 1, q, count);
    }
  }

  // Exactly these counters were incremented by one, modulo 2^64.
  ghost predicate Counted(before: seq<nat>, after: seq<nat>, which: set<nat>) {
    |before| == |after| == COUNTERS
    && forall k :: 0 <= k < COUNTERS ==> after[k] == if k in which then Mod64(before[k] + 1) else before[k]
  }

  method FetchAdd(stats: array<nat>, k: nat)
    requires k < stats.Length
    modifies stats
    ensures stats[..] == old(stats[..])[k := Mod64(old(stats[k]) + 1)]
  {
    stats[k] := Mod64(stats[k] + 1);
  }

  // Counts the exit of one packet whose total was already counted.
  method CountExit(stats: array<nat>, exit: Exit, action: Action)
    requires stats.Length == COUNTERS
    requires action == Redirect <==> exit == Redirected
    modifies stats
    ensures Counted(old(stats[..]), stats[..], {Reason(exit), Tally(action)})
  {
    if exit != Redirected {
      FetchAdd(stats, Reason(exit));
    }
    FetchAdd(stats, Tally(action));
  }

  // memcpy of the two addresses over the first twelve bytes.
  method RewriteMacs(frame: array<Byte>, backend: Backend)
    requires 12 <= frame.Length
    modifies frame
    ensures frame[..] == backend.destinationMac + backend.sourceMac + old(frame[12..])
  {
    for i := 0 to 6
      invariant frame[12..] == old(frame[12..])
      invariant frame[..i] == backend.destinationMac[..i] && frame[6..6 + i] == backend.sourceMac[..i]
    {
      frame[i] := backend.destinationMac[i];
      frame[6 + i] := backend.sourceMac[i];
    }
    assert frame[..] == frame[..6] + frame[6..12] + frame[12..];
  }

  // xdp_udp_rt. `config` is what the one outer and inner lookup returned; `helperOk` is whether
  // the redirect helper answered XDP_REDIRECT.
  method RuntimeProgram(frame: array<Byte>, stats: array?<nat>, config: Option<Snapshot>, helperOk: bool)
    returns (action: Action, exit: Exit)
    requires stats != null ==> stats.Length == COUNTERS
    modifies frame, stats
    ensures stats == null ==> action == Pass && frame[..] == old(frame[..])
    ensures stats != null ==> exit == RuntimeExit(old(frame[..]), config, helperOk) && action == RuntimeAction(exit)
    ensures stats != null ==> Counted(old(stats[..]), stats[..], {TOTAL, Reason(exit), Tally(action)})
    ensures stats != null ==> frame[..] == FrameAfter(old(frame[..]), exit, if config.Some? then config.value.backendCount else 0,
                                                      if config.Some? then config.value.backends else [])
    ensures stats != null && action == Redirect ==>
              config.Some? && SentByHash(old(frame[..]), frame[..], config.value.backendCount, config.value.backends)
  {
    hide PoolExit;
    hide FrameAfter;
    hide SentByHash;
    hide Supported;
    if stats == null {
      return Pass, Unsupported;
    }
    FetchAdd(stats, TOTAL);
    exit := DecideRuntime(frame, config, helperOk);
    action := RuntimeAction(exit);
    CountExit(stats, exit, action);
  }

  method DecideRuntime(frame: array<Byte>, config: Option<Snapshot>, helperOk: bool) returns (exit: Exit)
    modifies frame
    ensures exit == RuntimeExit(old(frame[..]), config, helperOk)
    ensures frame[..] == FrameAfter(old(frame[..]), exit, if config.Some? then config.value.backendCount else 0,
                                    if config.Some? then config.value.backends else [])
    ensures exit == Redirected ==>
              config.Some? && SentByHash(old(frame[..]), frame[..], config.value.backendCount, config.value.backends)
  {
    hide Supported;
    hide FlowHash;
    hide ValidMac;
    hide SentByHash;
    var ok := CheckFrame(frame);
    if !ok {
      return Unsupported;
    }
    SupportedIsLong(frame[..]);
    if config.None? || !RuntimeReadable(config.value) {
      return InvalidConfig;
    }
    var s := config.value;
    if frame[30..34] != s.vipAddress || frame[36..38] != s.vipPort {
      assert frame[30..34] == frame[..][30..34] && frame[36..38] == frame[..][36..38];
      return Unsupported;
    }
    assert frame[30..34] == frame[..][30..34] && frame[36..38] == frame[..][36..38];
    if s.backendCount == 0 {
      return EmptyPool;
    }
    var hash := HashFlow(frame);
    var key := HashIndex(hash, s.backendCount);
    MaskIsNoOp(key);
    var backend := s.backends[MaskIndex(key)];
    if !UsableBackend(backend) {
      return InvalidConfig;
    }
    if !helperOk {
      return HelperFailed;
    }
    RewriteMacs(frame, backend);
    RedirectGoesByHash(old(frame[..]), s.vipAddress, s.vipPort, s.backendCount, s.backends, helperOk);
    exit := Redirected;
  }

  lemma SupportedIsLong(f: seq<Byte>)
    requires Supported(f)
    ensures HEADERS <= |f|
  {
  }

  // xdp_udp_dsr, over a frozen configuration and its array of 64 backends.
  method StaticProgram(frame: array<Byte>, stats: array?<nat>, config: Option<StaticConfig>, backends: seq<Backend>, helperOk: bool)
    returns (action: Action, exit: Exit)
    requires stats != null ==> stats.Length == COUNTERS
    modifies frame, stats
    ensures stats == null ==> action == Pass && frame[..] == old(frame[..])
    ensures stats != null ==> exit == StaticExit(old(frame[..]), config, backends, helperOk) && action == StaticAction(exit)
    ensures stats != null ==> Counted(old(stats[..]), stats[..], {TOTAL, Reason(exit), Tally(action)})
    ensures stats != null ==> frame[..] == FrameAfter(old(frame[..]), exit, if config.Some? then config.value.backendCount else 0, backends)
    ensures stats != null && action == Redirect ==>
              config.Some? && SentByHash(old(frame[..]), frame[..], config.value.backendCount, backends)
  {
    hide PoolExit;
    hide FrameAfter;
    hide SentByHash;
    hide Supported;
    if stats == null {
      return Pass, Unsupported;
    }
    FetchAdd(stats, TOTAL);
    exit := DecideStatic(frame, config, backends, helperOk);
    action := StaticAction(exit);
    CountExit(stats, exit, action);
  }

  method DecideStatic(frame: array<Byte>, config: Option<StaticConfig>, backends: seq<Backend>, helperOk: bool) returns (exit: Exit)
    modifies frame
    ensures exit == StaticExit(old(frame[..]), config, backends, helperOk)
    ensures frame[..] == FrameAfter(old(frame[..]), exit, if config.Some? then config.value.backendCount else 0, backends)
    ensures exit == Redirected ==>
              config.Some? && SentByHash(old(frame[..]), frame[..], config.value.backendCount, backends)
  {
    hide Supported;
    hide FlowHash;
    hide ValidMac;
    hide SentByHash;
    var ok := CheckFrame(frame);
    if !ok {
      return Unsupported;
    }
    SupportedIsLong(frame[..]);
    if config.None? || !StaticReadable(config.value, backends) {
      return InvalidConfig;
    }
    var c := config.value;
    if frame[30..34] != c.vipAddress || frame[36..38] != c.vipPort {
      assert frame[30..34] == frame[..][30..34] && frame[36..38] == frame[..][36..38];
      return Unsupported;
    }
    assert frame[30..34] == frame[..][30..34] && frame[36..38] == frame[..][36..38];
    if c.backendCount == 0 {
      return EmptyPool;
    }
    var hash := HashFlow(frame);
    var key := HashIndex(hash, c.backendCount);
    var backend := backends[key];
    if !UsableBackend(backend) {
      return InvalidConfig;
    }
    if !helperOk {
      return HelperFailed;
    }
    RewriteMacs(frame, backend);
    RedirectGoesByHash(old(frame[..]), c.vipAddress, c.vipPort, c.backendCount, backends, helperOk);
    exit := Redirected;
  }
}
