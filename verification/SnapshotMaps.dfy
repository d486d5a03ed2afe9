/**
 The outer map, its inner maps and the packets that read them, as a state machine. Publisher and
 packets take turns in any order; a packet looks the outer slot up once and then loads fields of
 the inner map at any later times.
 */
module SnapshotMaps {
  import opened Common
  import opened RuntimeSchema
  import opened XdpPacket
  import opened XdpPrograms

  datatype Inner = Inner(value: Snapshot, frozen: bool)

  // A packet that got past the outer lookup: the map it holds, what it has loaded so far, and
  // which publication was current at its lookup.
  datatype Packet = Packet(inner: nat, loads: seq<Snapshot>, at: nat)

  datatype World = World(
    inners: seq<Inner>, outer: Option<nat>, packets: seq<Packet>,
    history: seq<nat>, published: seq<Snapshot>)

  // What the store accepts after generation g. Slots beyond the pool are zero.
  ghost predicate ValidSnapshot(s: Snapshot, g: nat) {
    && s.schemaVersion == RUNTIME_SCHEMA && s.backendCount <= MAX_BACKENDS && s.reserved == 0
    && g < U64_MAX && s.generation == g + 1 && s.vipAddress != NO_ADDRESS && s.vipPort != NO_PORT
    && |s.backends| == MAX_BACKENDS
    && forall i :: 0 <= i < MAX_BACKENDS ==> SlotOk(s.backends[i], i, s.backendCount)
  }

  predicate SlotOk(b: Backend, i: nat, count: nat) {
    if i < count then UsableBackend(b) else b == EMPTY_BACKEND
  }

  // Under a validated snapshot no packet leaves through the invalid-configuration exit.
  lemma ValidatedNeverInvalid(f: seq<Byte>, s: Snapshot, g: nat, helperOk: bool)
    requires ValidSnapshot(s, g)
    ensures RuntimeReadable(s) && RuntimeExit(f, Some(s), helperOk) != InvalidConfig
  {
    hide Supported;
    hide UsableBackend;
    if Supported(f) && 0 < s.backendCount {
      assert SlotOk(s.backends[PickedIndex(f, s.backendCount)], PickedIndex(f, s.backendCount), s.backendCount);
    }
  }

  // ---- Steps ----

  datatype PacketStep = LookUp | Load(packet: nat)

  function TakeStep(w: World, step: PacketStep): World {
    match step
    case LookUp =>
      if w.outer.None? || w.history == [] then w
      else w.(packets := w.packets + [Packet(w.outer.value, [], |w.history| - 1)])
    case Load(i) =>
      if i < |w.packets| && w.packets[i].inner < |w.inners|
      then w.(packets := w.packets[i := w.packets[i].(loads := w.packets[i].loads + [w.inners[w.packets[i].inner].value])])
      else w
  }

  function CreateInner(w: World, value: Snapshot): World {
    w.(inners := w.inners + [Inner(value, false)])
  }

  function StoreInner(w: World, id: nat, value: Snapshot): World
    requires id < |w.inners|
  {
    w.(inners := w.inners[id := w.inners[id].(value := value)])
  }

  function FreezeInner(w: World, id: nat): World
    requires id < |w.inners|
  {
    w.(inners := w.inners[id := w.inners[id].(frozen := true)])
  }

  function SwapOuter(w: World, id: nat): World
    requires id < |w.inners|
  {
    w.(outer := Some(id), history := w.history + [id], published := w.published + [w.inners[id].value])
  }

  // ---- Invariant ----

  // Publication k: its map is frozen and still holds the valid snapshot published there.
  ghost predicate PublicationOk(w: World, k: nat)
    requires k < |w.history| == |w.published|
  {
    && w.history[k] < |w.inners| && w.inners[w.history[k]] == Inner(w.published[k], true)
    && ValidSnapshot(w.published[k], k)
  }

  ghost predicate PacketOk(w: World, p: Packet)
    requires |w.history| == |w.published|
  {
    && p.at < |w.history| && p.inner == w.history[p.at]
    && forall i :: 0 <= i < |p.loads| ==> p.loads[i] == w.published[p.at]
  }

  ghost predicate Inv(w: World) {
    && |w.history| == |w.published|
    && w.outer == (if w.history == [] then None else Some(w.history[|w.history| - 1]))
    && (forall k :: 0 <= k < |w.history| ==> PublicationOk(w, k))
    && (forall i :: 0 <= i < |w.packets| ==> PacketOk(w, w.packets[i]))
    && (forall i, j :: 0 <= i < j < |w.packets| ==> w.packets[i].at <= w.packets[j].at)
  }

  // Later worlds: publications are only added, and packets keep what they hold and loaded.
  ghost predicate Later(w: World, w': World) {
    && |w.inners| <= |w'.inners| && |w.packets| <= |w'.packets|
    && w.history <= w'.history && w.published <= w'.published
    && forall i :: 0 <= i < |w.packets| ==>
         w.packets[i].inner == w'.packets[i].inner && w.packets[i].at == w'.packets[i].at
         && w.packets[i].loads <= w'.packets[i].loads
  }

  lemma LaterTrans(a: World, b: World, c: World)
    requires Later(a, b) && Later(b, c)
    ensures Later(a, c)
  {
  }

  lemma StepKeeps(w: World, step: PacketStep)
    requires Inv(w)
    ensures var v := TakeStep(w, step);
            Inv(v) && Later(w, v) && v == w.(packets := v.packets)
  {
    hide ValidSnapshot;
    var v := TakeStep(w, step);
    assert forall k :: 0 <= k < |v.history| ==> PublicationOk(w, k) ==> PublicationOk(v, k);
    forall i | 0 <= i < |v.packets|
      ensures PacketOk(v, v.packets[i])
    {
      if i < |w.packets| {
        assert PacketOk(w, w.packets[i]) && PublicationOk(w, w.packets[i].at);
      }
    }
  }

  lemma CreateKeeps(w: World, value: Snapshot)
    requires Inv(w)
    ensures Inv(CreateInner(w, value)) && Later(w, CreateInner(w, value))
  {
    hide ValidSnapshot;
    var v := CreateInner(w, value);
    assert forall k :: 0 <= k < |v.history| ==> PublicationOk(w, k) ==> PublicationOk(v, k);
    assert forall i :: 0 <= i < |v.packets| ==> PacketOk(w, w.packets[i]) ==> PacketOk(v, v.packets[i]);
  }

  // A map that is not frozen was never published, so writing it, torn or not, is invisible.
  lemma StoreKeeps(w: World, id: nat, value: Snapshot)
    requires Inv(w) && id < |w.inners| && !w.inners[id].frozen
    ensures Inv(StoreInner(w, id, value)) && Later(w, StoreInner(w, id, value)) && id !in w.history
  {
    hide ValidSnapshot;
    var v := StoreInner(w, id, value);
    assert forall k :: 0 <= k < |v.history| ==> PublicationOk(w, k) ==> PublicationOk(v, k) && w.history[k] != id;
    assert forall i :: 0 <= i < |v.packets| ==> PacketOk(w, w.packets[i]) ==> PacketOk(v, v.packets[i]);
  }

  lemma FreezeKeeps(w: World, id: nat)
    requires Inv(w) && id < |w.inners|
    ensures Inv(FreezeInner(w, id)) && Later(w, FreezeInner(w, id))
  {
    hide ValidSnapshot;
    var v := FreezeInner(w, id);
    assert forall k :: 0 <= k < |v.history| ==> PublicationOk(w, k) ==> PublicationOk(v, k);
    assert forall i :: 0 <= i < |v.packets| ==> PacketOk(w, w.packets[i]) ==> PacketOk(v, v.packets[i]);
  }

  // The commit point.
  lemma SwapKeeps(w: World, id: nat)
    requires Inv(w) && id < |w.inners| && w.inners[id].frozen && ValidSnapshot(w.inners[id].value, |w.history|)
    ensures Inv(SwapOuter(w, id)) && Later(w, SwapOuter(w, id))
  {
    hide ValidSnapshot;
    var v := SwapOuter(w, id);
    assert forall k :: 0 <= k < |w.history| ==> PublicationOk(w, k) ==> PublicationOk(v, k);
    assert forall i :: 0 <= i < |v.packets| ==> PacketOk(w, w.packets[i]) ==> PacketOk(v, v.packets[i]);
  }

  // ---- Atomicity ----

  // The runtime program with every access to the inner map taken from a load of its own, down to
  // the single bytes of the addresses it checks and then copies.
  const LOADS: nat := 33

  ghost predicate FullyLoaded(m: seq<Snapshot>) {
    LOADS <= |m| && forall i :: 0 <= i < LOADS ==> |m[i].backends| == MAX_BACKENDS
  }

  ghost function KeyFromLoads(f: seq<Byte>, m: seq<Snapshot>): nat
    requires FullyLoaded(m) && Supported(f) && m[6].backendCount != 0
  {
    MaskIndex(HashIndex(FlowHash(f), m[6].backendCount) % U32)
  }

  // Six bytes of one address of backend `key`, from six loads.
  ghost function MacFromLoads(m: seq<Snapshot>, at: nat, key: nat, destination: bool): (mac: Mac)
    requires FullyLoaded(m) && at + 6 <= LOADS && key < MAX_BACKENDS
  {
    [MacByte(m[at].backends[key], 0, destination), MacByte(m[at + 1].backends[key], 1, destination),
     MacByte(m[at + 2].backends[key], 2, destination), MacByte(m[at + 3].backends[key], 3, destination),
     MacByte(m[at + 4].backends[key], 4, destination), MacByte(m[at + 5].backends[key], 5, destination)]
  }

  ghost function MacByte(b: Backend, j: nat, destination: bool): Byte
    requires j < 6
  {
    if destination then b.destinationMac[j] else b.sourceMac[j]
  }

  ghost function ExitFromLoads(f: seq<Byte>, m: seq<Snapshot>, helperOk: bool): Exit
    requires FullyLoaded(m)
  {
    if !Supported(f) then Unsupported
    else if m[0].schemaVersion != RUNTIME_SCHEMA || m[1].backendCount > MAX_BACKENDS || m[2].reserved != 0
            || m[3].generation == 0 then InvalidConfig
    else if f[30..34] != m[4].vipAddress || f[36..38] != m[5].vipPort then Unsupported
    else if m[6].backendCount == 0 then EmptyPool
    else
      var key := KeyFromLoads(f, m);
      if key >= MAX_BACKENDS then InvalidConfig
      else if m[7].backends[key].ifindex == 0 || !ValidMac(MacFromLoads(m, 8, key, true))
              || !ValidMac(MacFromLoads(m, 14, key, false)) || m[20].backends[key].ifindex == 0 then InvalidConfig
      else if helperOk then Redirected else HelperFailed
  }

  // The frame it leaves, with the copied addresses taken from the last twelve loads.
  ghost function FrameFromLoads(f: seq<Byte>, m: seq<Snapshot>, exit: Exit): seq<Byte>
    requires FullyLoaded(m)
  {
    if exit == Redirected && Supported(f) && m[6].backendCount != 0 && KeyFromLoads(f, m) < MAX_BACKENDS then
      MacFromLoads(m, 21, KeyFromLoads(f, m), true) + MacFromLoads(m, 27, KeyFromLoads(f, m), false) + f[12..]
    else f
  }

  // However its loads interleave with publications, a packet behaves as if it had read one
  // complete published snapshot at the instant of its outer lookup, and that snapshot is valid:
  // the same exit, and the same frame, never one with addresses of two snapshots.
  lemma PacketIsAtomic(w: World, i: nat, f: seq<Byte>, helperOk: bool)
    requires Inv(w) && i < |w.packets| && LOADS <= |w.packets[i].loads|
    ensures w.packets[i].at < |w.published| && FullyLoaded(w.packets[i].loads)
    ensures var (m, s) := (w.packets[i].loads, w.published[w.packets[i].at]);
            var exit := ExitFromLoads(f, m, helperOk);
            exit == RuntimeExit(f, Some(s), helperOk) && exit != InvalidConfig
            && FrameFromLoads(f, m, exit) == FrameAfter(f, exit, s.backendCount, s.backends)
  {
    hide ExitFromLoads;
    hide FrameFromLoads;
    hide RuntimeExit;
    hide FrameAfter;
    hide SlotOk;
    var p := w.packets[i];
    assert PacketOk(w, p);
    assert PublicationOk(w, p.at);
    var s := w.published[p.at];
    ValidatedNeverInvalid(f, s, p.at, helperOk);
    OneSnapshot(f, p.loads, s, helperOk);
  }

  // Loads that all saw one snapshot.
  lemma OneSnapshot(f: seq<Byte>, m: seq<Snapshot>, s: Snapshot, helperOk: bool)
    requires FullyLoaded(m) && RuntimeReadable(s) && forall i :: 0 <= i < LOADS ==> m[i] == s
    ensures var exit := ExitFromLoads(f, m, helperOk);
            exit == RuntimeExit(f, Some(s), helperOk)
            && FrameFromLoads(f, m, exit) == FrameAfter(f, exit, s.backendCount, s.backends)
  {
    hide Supported;
    hide ValidMac;
    hide FlowHash;
    hide MaskIndex;
    hide MacFromLoads;
    if Supported(f) && 0 < s.backendCount {
      var key := PickedIndex(f, s.backendCount);
      MaskIsNoOp(key);
      SameMac(m, s, 8, key);
      SameMac(m, s, 14, key);
      SameMac(m, s, 21, key);
      SameMac(m, s, 27, key);
    }
  }

  lemma SameMac(m: seq<Snapshot>, s: Snapshot, at: nat, key: nat)
    requires FullyLoaded(m) && at + 6 <= LOADS && key < MAX_BACKENDS && |s.backends| == MAX_BACKENDS
    requires forall i :: 0 <= i < LOADS ==> m[i] == s
    ensures MacFromLoads(m, at, key, true) == s.backends[key].destinationMac
    ensures MacFromLoads(m, at, key, false) == s.backends[key].sourceMac
  {
  }

  // The generations of successive outer lookups never decrease.
  lemma GenerationsMonotone(w: World, i: nat, j: nat)
    requires Inv(w) && i <= j < |w.packets|
    ensures w.packets[j].at < |w.published|
    ensures w.published[w.packets[i].at].generation <= w.published[w.packets[j].at].generation
    ensures w.published[w.packets[j].at].generation == w.packets[j].at + 1
  {
    hide ValidSnapshot;
    assert PacketOk(w, w.packets[i]) && PacketOk(w, w.packets[j]);
    assert PublicationOk(w, w.packets[i].at) && PublicationOk(w, w.packets[j].at);
    Generation(w.published[w.packets[i].at], w.packets[i].at);
    Generation(w.published[w.packets[j].at], w.packets[j].at);
    assert i < j ==> w.packets[i].at <= w.packets[j].at;
  }

  lemma Generation(s: Snapshot, g: nat)
    requires ValidSnapshot(s, g)
    ensures s.generation == g + 1
  {
  }

  // A lookup taken now sees the latest publication.
  lemma LookUpIsFresh(w: World)
    requires Inv(w) && w.history != []
    ensures var v := TakeStep(w, LookUp);
            |v.packets| == |w.packets| + 1 && v.packets[|w.packets|].at == |w.published| - 1
            && v.packets[|w.packets|].inner == w.outer.value
  {
  }
}
