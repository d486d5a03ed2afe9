/**
 What the two packet programs have in common: agreement on every frame, the scope of a redirect,
 and the balance of the counters, which survives the sum over all CPUs.
 */
module XdpAgreement {
  import opened Common
  import opened RuntimeSchema
  import opened XdpPacket
  import opened XdpPrograms

  // A frozen static configuration and a snapshot that describe the same service.
  ghost predicate Corresponding(c: StaticConfig, backends: seq<Backend>, s: Snapshot) {
    && StaticReadable(c, backends) && RuntimeReadable(s)
    && c.vipAddress == s.vipAddress && c.vipPort == s.vipPort
    && c.backendCount == s.backendCount && backends == s.backends
  }

  // Same exit, frame and reason for every packet; same verdict, and so the same counters, unless
  // the packet is for the service and the pool is empty: PASS there, DROP here.
  lemma ProgramsAgree(f: seq<Byte>, c: StaticConfig, backends: seq<Backend>, s: Snapshot, helperOk: bool)
    requires Corresponding(c, backends, s)
    ensures StaticExit(f, Some(c), backends, helperOk) == RuntimeExit(f, Some(s), helperOk)
    ensures var exit := RuntimeExit(f, Some(s), helperOk);
            FrameAfter(f, exit, c.backendCount, backends) == FrameAfter(f, exit, s.backendCount, s.backends)
    ensures var exit := RuntimeExit(f, Some(s), helperOk);
            StaticAction(exit) != RuntimeAction(exit) <==>
            s.backendCount == 0 && Supported(f) && ToVip(f, s.vipAddress, s.vipPort)
    ensures var exit := RuntimeExit(f, Some(s), helperOk);
            StaticAction(exit) != RuntimeAction(exit) ==> StaticAction(exit) == Pass && RuntimeAction(exit) == Drop
  {
    hide UsableBackend;
    var exit := RuntimeExit(f, Some(s), helperOk);
    assert exit == EmptyPool <==> s.backendCount == 0 && Supported(f) && ToVip(f, s.vipAddress, s.vipPort);
  }

  // The same claim about runs of the two programs, on copies of one frame and one set of
  // counters: with a non-empty pool nobody can tell which of them ran.
  method RunBoth(frame: array<Byte>, copy: array<Byte>, stats: array<nat>, other: array<nat>,
                 c: StaticConfig, backends: seq<Backend>, s: Snapshot, helperOk: bool)
    returns (action: Action, otherAction: Action)
    requires stats.Length == other.Length == COUNTERS && frame != copy && stats != other
    requires frame[..] == copy[..] && stats[..] == other[..]
    requires Corresponding(c, backends, s)
    modifies frame, copy, stats, other
    ensures frame[..] == copy[..]
    ensures 0 < s.backendCount ==> action == otherAction && stats[..] == other[..]
    ensures action != otherAction ==> action == Drop && otherAction == Pass
  {
    hide StaticExit;
    hide RuntimeExit;
    hide FrameAfter;
    hide Counted;
    hide ToVip;
    hide Supported;
    var exit, otherExit;
    ghost var f, counters := frame[..], stats[..];
    ProgramsAgree(f, c, backends, s, helperOk);
    action, exit := RuntimeProgram(frame, stats, Some(s), helperOk);
    otherAction, otherExit := StaticProgram(copy, other, Some(c), backends, helperOk);
    if action == otherAction {
      CountedOnce(counters, stats[..], other[..], {TOTAL, Reason(exit), Tally(action)});
    }
  }

  lemma CountedOnce(before: seq<nat>, after: seq<nat>, other: seq<nat>, which: set<nat>)
    requires Counted(before, after, which) && Counted(before, other, which)
    ensures after == other
  {
  }

  // ---- Redirection ----

  // A redirect changes no byte but the first twelve, and those are the addresses of the backend
  // that the flow hash picked.
  lemma RedirectTouchesOnlyMacs(f: seq<Byte>, exit: Exit, count: nat, backends: seq<Backend>)
    ensures |FrameAfter(f, exit, count, backends)| == |f|
    ensures forall i :: 12 <= i < |f| ==> FrameAfter(f, exit, count, backends)[i] == f[i]
    ensures exit != Redirected ==> FrameAfter(f, exit, count, backends) == f
    ensures exit == Redirected && Supported(f) && 0 < count <= |backends| ==>
              FrameAfter(f, exit, count, backends)[..6] == backends[PickedIndex(f, count)].destinationMac
              && FrameAfter(f, exit, count, backends)[6..12] == backends[PickedIndex(f, count)].sourceMac
  {
    hide FlowHash;
  }

  // The rewritten frame is a supported frame of the same flow: a second pass through the same
  // pool picks the same backend and changes nothing more.
  lemma RedirectIsStable(f: seq<Byte>, count: nat, backends: seq<Backend>)
    requires Supported(f) && 0 < count <= |backends|
    ensures var g := FrameAfter(f, Redirected, count, backends);
            Supported(g) && PickedIndex(g, count) == PickedIndex(f, count)
            && FrameAfter(g, Redirected, count, backends) == g
  {
    hide Fnv;
    hide OnesSum;
    RedirectTouchesOnlyMacs(f, Redirected, count, backends);
    var g := FrameAfter(f, Redirected, count, backends);
    assert HeaderWords(g) == HeaderWords(f);
    assert g[26..38] == f[26..38];
    assert g[12..] == f[12..];
  }

  // Packets of one flow stay on one backend while the pool does not change.
  lemma SameFlowSameBackend(f: seq<Byte>, g: seq<Byte>, count: nat)
    requires Supported(f) && Supported(g) && 0 < count
    requires f[26..38] == g[26..38]
    ensures PickedIndex(f, count) == PickedIndex(g, count)
  {
    hide Supported;
    hide Fnv;
    SupportedIsLong(f);
    SupportedIsLong(g);
  }

  // ---- Counters ----

  ghost predicate Wrapped(stats: seq<nat>) {
    |stats| == COUNTERS && forall k :: 0 <= k < COUNTERS ==> stats[k] < U64
  }

  // total = pass + redirect + drop, modulo 2^64.
  ghost predicate Balanced(stats: seq<nat>)
    requires Wrapped(stats)
  {
    Mod64(stats[PASSED] + stats[REDIRECTS] + stats[DROPPED]) == stats[TOTAL]
  }

  // Every pass and every drop has its reason; an empty pool is a drop at run time only.
  ghost predicate Explained(stats: seq<nat>)
    requires Wrapped(stats)
  {
    Mod64(stats[UNSUPPORTED] + stats[INVALID_CONFIG]) == stats[PASSED]
    && Mod64(stats[NO_BACKEND] + stats[HELPER_ERROR]) == stats[DROPPED]
  }

  ghost predicate ExplainedStatic(stats: seq<nat>)
    requires Wrapped(stats)
  {
    Mod64(stats[UNSUPPORTED] + stats[INVALID_CONFIG] + stats[NO_BACKEND]) == stats[PASSED]
    && stats[HELPER_ERROR] == stats[DROPPED]
  }

  // Adding after the wrap is wrapping after the addition.
  lemma AddMod(a: nat, b: nat)
    ensures Mod64(Mod64(a) + b) == Mod64(a + b)
  {
    var q := a / U64;
    assert a + b == q * U64 + (a % U64 + b);
    SkipWraps(q, a % U64 + b);
  }

  lemma {:induction false} SkipWraps(q: nat, r: nat)
    ensures (q * U64 + r) % U64 == r % U64
  {
    if q != 0 {
      SkipWraps(q - 1, r);
      assert q * U64 + r == ((q - 1) * U64 + r) + U64;
      OneWrap((q - 1) * U64 + r);
    }
  }

  lemma OneWrap(x: nat)
    ensures (x + U64) % U64 == x % U64
  {
  }

  // One of two or three summands is bumped, and so is the sum.
  lemma BumpPart(a: nat, b: nat, sum: nat)
    requires Mod64(a + b) == sum
    ensures Mod64(Mod64(a + 1) + b) == Mod64(sum + 1)
  {
    AddMod(a + 1, b);
    AddMod(a + b, 1);
    assert a + 1 + b == a + b + 1;
  }

  // A sum of two sums.
  lemma AddParts(a: nat, b: nat, sum: nat, c: nat, d: nat, other: nat)
    requires Mod64(a + b) == sum && Mod64(c + d) == other
    ensures Mod64(Mod64(a + c) + Mod64(b + d)) == Mod64(sum + other)
  {
    AddMod(a + c, Mod64(b + d));
    AddMod(b + d, a + c);
    AddMod(a + b, other);
    AddMod(c + d, a + b);
    assert a + c + (b + d) == c + d + (a + b);
  }

  lemma AddThree(a: nat, b: nat, c: nat, sum: nat, d: nat, e: nat, f: nat, other: nat)
    requires Mod64(a + b + c) == sum && Mod64(d + e + f) == other
    ensures Mod64(Mod64(a + d) + Mod64(b + e) + Mod64(c + f)) == Mod64(sum + other)
  {
    hide Mod64;
    AddMod(a + b, c);
    AddMod(d + e, f);
    AddParts(Mod64(a + b), c, sum, Mod64(d + e), f, other);
    AddParts(a, b, Mod64(a + b), d, e, Mod64(d + e));
    AddMod(Mod64(a + d) + Mod64(b + e), Mod64(c + f));
  }

  lemma PacketKeepsBalance(before: seq<nat>, after: seq<nat>, exit: Exit)
    requires Wrapped(before)
    ensures Counted(before, after, {TOTAL, Reason(exit), Tally(RuntimeAction(exit))}) ==>
              Wrapped(after) && (Balanced(before) ==> Balanced(after)) && (Explained(before) ==> Explained(after))
    ensures Counted(before, after, {TOTAL, Reason(exit), Tally(StaticAction(exit))}) ==>
              Wrapped(after) && (Balanced(before) ==> Balanced(after)) && (ExplainedStatic(before) ==> ExplainedStatic(after))
  {
    hide Mod64;
    var p, r, d, t := before[PASSED], before[REDIRECTS], before[DROPPED], before[TOTAL];
    if Balanced(before) {
      BumpPart(p, r + d, t);
      BumpPart(r, p + d, t);
      BumpPart(d, p + r, t);
    }
    var u, i, n, h := before[UNSUPPORTED], before[INVALID_CONFIG], before[NO_BACKEND], before[HELPER_ERROR];
    if Explained(before) {
      BumpPart(u, i, p);
      BumpPart(i, u, p);
      BumpPart(n, h, d);
      BumpPart(h, n, d);
    }
    if ExplainedStatic(before) {
      BumpPart(u, i + n, p);
      BumpPart(i, u + n, p);
      BumpPart(n, u + i, p);
    }
  }

  // The counters of one CPU.
  type Stats = s: seq<nat> | |s| == COUNTERS witness [0, 0, 0, 0, 0, 0, 0, 0]

  function Sum(values: seq<Stats>, k: nat): nat
    requires k < COUNTERS
  {
    if values == [] then 0 else Sum(values[..|values| - 1], k) + values[|values| - 1][k]
  }

  // readRuntimeStatistics: the sum over all CPUs, in 64-bit arithmetic.
  method ReadRuntimeStatistics(values: seq<Stats>) returns (sum: Stats)
    requires forall i :: 0 <= i < |values| ==> Wrapped(values[i])
    ensures Wrapped(sum) && forall k :: 0 <= k < COUNTERS ==> sum[k] == Mod64(Sum(values, k))
    ensures (forall i :: 0 <= i < |values| ==> Balanced(values[i])) ==> Balanced(sum)
    ensures (forall i :: 0 <= i < |values| ==> Explained(values[i])) ==> Explained(sum)
  {
    sum := [0, 0, 0, 0, 0, 0, 0, 0];
    for i := 0 to |values|
      invariant Wrapped(sum) && forall k :: 0 <= k < COUNTERS ==> sum[k] == Mod64(Sum(values[..i], k))
      invariant (forall j :: 0 <= j < i ==> Balanced(values[j])) ==> Balanced(sum)
      invariant (forall j :: 0 <= j < i ==> Explained(values[j])) ==> Explained(sum)
    {
      assert values[..i + 1][..i] == values[..i];
      SumKeepsBalance(sum, values[i]);
      forall k | 0 <= k < COUNTERS
        ensures AddStatistics(sum, values[i])[k] == Mod64(Sum(values[..i + 1], k))
      {
        SumExtends(values[..i + 1], sum, k);
      }
      sum := AddStatistics(sum, values[i]);
    }
    assert values[..|values|] == values;
  }

  // The eight additions of one CPU.
  function AddStatistics(sum: Stats, v: Stats): Stats
  {
    seq(COUNTERS, k requires 0 <= k < COUNTERS => Mod64(sum[k] + v[k]))
  }

  lemma SumKeepsBalance(a: Stats, b: Stats)
    requires Wrapped(a) && Wrapped(b)
    ensures Wrapped(AddStatistics(a, b))
    ensures Balanced(a) && Balanced(b) ==> Balanced(AddStatistics(a, b))
    ensures Explained(a) && Explained(b) ==> Explained(AddStatistics(a, b))
  {
    hide Mod64;
    if Balanced(a) && Balanced(b) {
      AddThree(a[PASSED], a[REDIRECTS], a[DROPPED], a[TOTAL], b[PASSED], b[REDIRECTS], b[DROPPED], b[TOTAL]);
    }
    if Explained(a) && Explained(b) {
      AddParts(a[UNSUPPORTED], a[INVALID_CONFIG], a[PASSED], b[UNSUPPORTED], b[INVALID_CONFIG], b[PASSED]);
      AddParts(a[NO_BACKEND], a[HELPER_ERROR], a[DROPPED], b[NO_BACKEND], b[HELPER_ERROR], b[DROPPED]);
    }
  }

  lemma SumExtends(values: seq<Stats>, before: Stats, k: nat)
    requires values != [] && k < COUNTERS && before[k] == Mod64(Sum(values[..|values| - 1], k))
    ensures AddStatistics(before, values[|values| - 1])[k] == Mod64(Sum(values, k))
  {
    hide *;
    var last := values[|values| - 1];
    StatisticsAt(before, last, k);
    AddMod(Sum(values[..|values| - 1], k), last[k]);
    assert Sum(values, k) == Sum(values[..|values| - 1], k) + last[k] by { SumUnfolds(values, k); }
  }

  lemma SumUnfolds(values: seq<Stats>, k: nat)
    requires values != [] && k < COUNTERS
    ensures Sum(values, k) == Sum(values[..|values| - 1], k) + values[|values| - 1][k]
  {
  }

  lemma StatisticsAt(a: Stats, b: Stats, k: nat)
    requires k < COUNTERS
    ensures AddStatistics(a, b)[k] == Mod64(a[k] + b[k])
  {
  }
}
