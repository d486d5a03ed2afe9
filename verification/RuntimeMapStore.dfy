/**
 Publication of a snapshot (src/xdp/RuntimeMapStore.cpp): build, write, read back, freeze, check
 and swap, with one commit point. Before every kernel call arbitrary packets take arbitrary
 steps, and every call may fail or, where a check follows, lie.
 */
module RuntimeMapStore {
  import opened Common
  import opened RuntimeSchema
  import opened SnapshotMaps

  const EPERM: nat := 1
  const EIO: nat := 5
  const EACCES: nat := 13

  // How a kernel call goes: as asked, with an error, or reporting success without it.
  datatype Outcome = Fine | Fails(error: nat) | Lies(value: Snapshot, id: nat)

  const ZERO_SNAPSHOT := Snapshot(0, 0, 0, NO_ADDRESS, NO_PORT, 0, [])

  /** The kernel side of the maps. Handles name open descriptors of inner maps. */
  class MapKernel {
    var world: World
    var outcomes: seq<Outcome>
    var traffic: seq<seq<PacketStep>>
    var torn: seq<Snapshot>      // what a packet would see in the middle of a write
    var handles: set<nat>
    ghost var faults: nat        // calls that did not do what they were asked

    ghost predicate Valid()
      reads this`world
    {
      Inv(world)
    }

    constructor (outcomes: seq<Outcome>, traffic: seq<seq<PacketStep>>, torn: seq<Snapshot>)
      ensures Valid() && handles == {} && world == World([], None, [], [], []) && faults == 0
    {
      world := World([], None, [], [], []);
      this.outcomes, this.traffic, this.torn, handles, faults := outcomes, traffic, torn, {}, 0;
    }

    // Packets run; neither the maps nor the publications change.
    method Traffic()
      requires Valid()
      modifies this`world, this`traffic
      ensures Valid() && Later(old(world), world) && world == old(world).(packets := world.packets)
    {
      hide Inv;
      if traffic == [] {
        return;
      }
      var steps := traffic[0];
      traffic := traffic[1..];
      for k := 0 to |steps|
        invariant Valid() && Later(old(world), world) && world == old(world).(packets := world.packets)
      {
        StepKeeps(world, steps[k]);
        LaterTrans(old(world), world, TakeStep(world, steps[k]));
        world := TakeStep(world, steps[k]);
      }
    }

    method Next() returns (outcome: Outcome)
      requires Valid()
      modifies this`world, this`traffic, this`outcomes
      ensures Valid() && Later(old(world), world) && world == old(world).(packets := world.packets)
    {
      Traffic();
      outcome := Fine;
      if outcomes != [] {
        outcome, outcomes := outcomes[0], outcomes[1..];
      }
    }

    // Nothing was published, and only map `id` may have changed.
    ghost predicate Unpublished(before: World, id: nat)
      reads this`world
    {
      && Later(before, world) && world.outer == before.outer
      && world.history == before.history && world.published == before.published
      && |world.inners| == |before.inners|
      && forall i :: 0 <= i < |before.inners| && i != id ==> world.inners[i] == before.inners[i]
    }

    method Create() returns (id: Option<nat>)
      requires Valid()
      modifies this`world, this`traffic, this`outcomes, this`handles, this`faults
      ensures Valid() && Later(old(world), world) && world.outer == old(world.outer)
      ensures world.history == old(world.history) && world.published == old(world.published)
      ensures id == None ==> handles == old(handles) && faults == old(faults) + 1
      ensures id.Some? ==> handles == old(handles) + {id.value} && faults == old(faults)
      ensures id.Some? ==> id.value == |old(world.inners)| && |world.inners| == id.value + 1 && !world.inners[id.value].frozen
    {
      hide Inv;
      var outcome := Next();
      if outcome != Fine {
        faults := faults + 1;
        return None;
      }
      CreateKeeps(world, ZERO_SNAPSHOT);
      LaterTrans(old(world), world, CreateInner(world, ZERO_SNAPSHOT));
      id := Some(|world.inners|);
      world := CreateInner(world, ZERO_SNAPSHOT);
      handles := handles + {id.value};
    }

    // One store into a map that is not frozen. Packets may run in the middle of it.
    method Write(id: nat, value: Snapshot)
      requires Valid() && id < |world.inners| && !world.inners[id].frozen
      modifies this`world, this`traffic, this`torn
      ensures Valid() && Unpublished(old(world), id) && world.inners[id] == Inner(value, false)
    {
      hide Inv;
      hide Later;
      var half := value;
      if torn != [] {
        half, torn := torn[0], torn[1..];
      }
      StoreKeeps(world, id, half);
      world := StoreInner(world, id, half);
      ghost var middle := world;
      Traffic();
      LaterTrans(old(world), middle, world);
      ghost var after := world;
      StoreKeeps(world, id, value);
      world := StoreInner(world, id, value);
      LaterTrans(old(world), after, world);
    }

    // Update of an inner map: EPERM if and only if it is frozen, unless the call fails otherwise.
    method Update(id: nat, value: Snapshot) returns (error: nat)
      requires Valid() && id < |world.inners|
      modifies this`world, this`traffic, this`outcomes, this`torn, this`faults
      ensures Valid() && Unpublished(old(world), id) && world.inners[id].frozen == old(world.inners[id].frozen)
      ensures old(world.inners[id].frozen) ==> world.inners[id] == old(world.inners[id]) && error != 0
      ensures error == EPERM || error == EACCES ==> world.inners[id].frozen && faults == old(faults)
      ensures error == 0 ==> faults == old(faults) + if world.inners[id].value == value then 0 else 1
      ensures error == 0 || error == EPERM || faults == old(faults) + 1
    {
      hide Inv;
      hide Later;
      var outcome := Next();
      match outcome {
        case Fails(code) =>
          faults := faults + 1;
          return if code == 0 || code == EPERM || code == EACCES then EIO else code;
        case _ =>
      }
      if world.inners[id].frozen {
        return EPERM;
      }
      ghost var before := world;
      var stored := if outcome.Lies? then outcome.value else value;
      Write(id, stored);
      LaterTrans(old(world), before, world);
      if stored != value {
        faults := faults + 1;
      }
      error := 0;
    }

    method Lookup(id: nat) returns (value: Option<Snapshot>)
      requires Valid() && id < |world.inners|
      modifies this`world, this`traffic, this`outcomes, this`faults
      ensures Valid() && Unpublished(old(world), id) && world.inners[id] == old(world.inners[id])
      ensures value.Some? ==> value.value == world.inners[id].value && faults == old(faults)
      ensures value == None ==> faults == old(faults) + 1
    {
      var outcome := Next();
      if outcome != Fine {
        faults := faults + 1;
        return None;
      }
      value := Some(world.inners[id].value);
    }

    // A freeze may claim success without freezing.
    method Freeze(id: nat) returns (ok: bool)
      requires Valid() && id < |world.inners| && !world.inners[id].frozen
      modifies this`world, this`traffic, this`outcomes, this`faults
      ensures Valid() && Unpublished(old(world), id) && world.inners[id].value == old(world.inners[id].value)
      ensures world.inners[id].frozen ==> ok && faults == old(faults)
      ensures !world.inners[id].frozen ==> faults == old(faults) + 1
    {
      hide Inv;
      hide Later;
      var outcome := Next();
      if outcome == Fine {
        FreezeKeeps(world, id);
        LaterTrans(old(world), world, FreezeInner(world, id));
        world := FreezeInner(world, id);
      } else {
        faults := faults + 1;
      }
      ok := !outcome.Fails?;
    }

    // The map's own id, or None for a failing call or metadata that does not match.
    method Metadata(id: nat) returns (info: Option<nat>)
      requires Valid()
      modifies this`world, this`traffic, this`outcomes, this`faults
      ensures Valid() && Unpublished(old(world), id) && world.inners == old(world.inners)
      ensures info == if faults == old(faults) then Some(id) else None
      ensures old(faults) <= faults <= old(faults) + 1
    {
      var outcome := Next();
      if outcome != Fine {
        faults := faults + 1;
        return None;
      }
      info := Some(id);
    }

    // The commit: one atomic store into the outer slot.
    method Swap(id: nat) returns (ok: bool)
      requires Valid() && id < |world.inners| && world.inners[id].frozen
      requires ValidSnapshot(world.inners[id].value, |world.history|)
      modifies this`world, this`traffic, this`outcomes, this`faults
      ensures Valid() && Later(old(world), world)
      ensures faults == old(faults) + if ok then 0 else 1
      ensures !ok ==> Unpublished(old(world), id)
      ensures ok ==> world.published == old(world.published) + [old(world.inners[id].value)]
      ensures ok ==> world.outer == Some(id) && world.history == old(world.history) + [id]
    {
      hide Inv;
      hide Later;
      hide ValidSnapshot;
      var outcome := Next();
      if outcome != Fine {
        faults := faults + 1;
        return false;
      }
      SwapKeeps(world, id);
      LaterTrans(old(world), world, SnapshotMaps.SwapOuter(world, id));
      world := SnapshotMaps.SwapOuter(world, id);
      ok := true;
    }

    // The id in the outer slot, as reported.
    method LookupOuter() returns (id: Option<nat>)
      requires Valid()
      modifies this`world, this`traffic, this`outcomes, this`faults
      ensures Valid() && Later(old(world), world) && world.outer == old(world.outer)
      ensures world.history == old(world.history) && world.published == old(world.published)
      ensures old(world.outer.Some?) ==> (id == world.outer <==> faults == old(faults))
      ensures old(faults) <= faults
    {
      var outcome := Next();
      id := match outcome { case Fine => world.outer case Fails(_) => None case Lies(_, other) => Some(other) };
      if id != world.outer || id == None {
        faults := faults + 1;
      }
    }

    method Close(id: nat)
      modifies this`handles
      ensures handles == old(handles) - {id}
    {
      handles := handles - {id};
    }
  }

  // How publishSnapshot ends: normally, with invalid_argument, with runtime_error before the
  // commit, or with RuntimePublishError after it.
  datatype Publication = Published | Rejected | Failed | FailedAfterCommit

  predicate Committed(p: Publication) {
    p == Published || p == FailedAfterCommit
  }

  // validateCandidateSnapshot.
  method ValidateCandidateSnapshot(s: Snapshot, g: nat) returns (ok: bool)
    requires |s.backends| == MAX_BACKENDS && g <= U64_MAX
    ensures ok <==> ValidSnapshot(s, g)
  {
    hide UsableBackend;
    if s.schemaVersion != 3 || s.backendCount > 64 || s.reserved != 0 || g == U64_MAX || s.generation != g + 1
       || s.vipAddress == NO_ADDRESS || s.vipPort == NO_PORT {
      return false;
    }
    for i := 0 to 64
      invariant forall j :: 0 <= j < i ==> SlotOk(s.backends[j], j, s.backendCount)
    {
      if i < s.backendCount {
        if !UsableBackend(s.backends[i]) {
          return false;
        }
      } else if s.backends[i] != EMPTY_BACKEND {
        return false;
      }
    }
    ok := true;
  }

  class RuntimeMapStore {
    const kernel: MapKernel
    var activeFd: Option<nat>
    var generation: nat

    // The store owns exactly the active descriptor, and its generation counts publications.
    ghost predicate Valid()
      reads this`activeFd, this`generation, kernel`world, kernel`handles
    {
      && kernel.Valid()
      && activeFd == kernel.world.outer && generation == |kernel.world.history| <= U64_MAX
      && kernel.handles == if activeFd.Some? then {activeFd.value} else {}
    }

    constructor (kernel: MapKernel)
      requires kernel.Valid() && kernel.world.outer == None && kernel.handles == {}
      ensures Valid() && this.kernel == kernel && generation == 0
    {
      this.kernel, activeFd, generation := kernel, None, 0;
    }

    // The candidate built from `snapshot`: a frozen, unpublished map holding exactly it. None is
    // a failure, which has closed the candidate again.
    method Prepare(snapshot: Snapshot) returns (candidate: Option<nat>)
      requires Valid()
      modifies kernel
      ensures Later(old(kernel.world), kernel.world) && kernel.Valid()
      ensures kernel.world.outer == old(kernel.world.outer) && kernel.world.history == old(kernel.world.history)
      ensures kernel.world.published == old(kernel.world.published)
      ensures candidate == None ==> kernel.handles == old(kernel.handles) && kernel.faults > old(kernel.faults)
      ensures candidate.Some? ==> kernel.handles == old(kernel.handles) + {candidate.value} && kernel.faults == old(kernel.faults)
      ensures candidate.Some? ==> candidate.value < |kernel.world.inners| && old(kernel.world.outer) != candidate
      ensures candidate.Some? ==> kernel.world.inners[candidate.value] == Inner(snapshot, true)
    {
      hide Inv;
      hide Later;
      OuterExists();
      candidate := kernel.Create();
      if candidate == None {
        return;
      }
      var id := candidate.value;
      ghost var w1 := kernel.world;
      var good := Fill(id, snapshot);
      LaterTrans(old(kernel.world), w1, kernel.world);
      if good {
        ghost var w2 := kernel.world;
        good := Seal(id, snapshot);
        LaterTrans(old(kernel.world), w2, kernel.world);
      }
      if !good {
        kernel.Close(id);
        candidate := None;
      }
    }

    lemma OuterExists()
      requires Valid()
      ensures kernel.world.outer.Some? ==> kernel.world.outer.value < |kernel.world.inners|
    {
      if kernel.world.history != [] {
        assert PublicationOk(kernel.world, |kernel.world.history| - 1);
      }
    }

    // Write and read back.
    method Fill(id: nat, snapshot: Snapshot) returns (good: bool)
      requires kernel.Valid() && id < |kernel.world.inners| && !kernel.world.inners[id].frozen
      modifies kernel`world, kernel`traffic, kernel`outcomes, kernel`torn, kernel`faults
      ensures kernel.Valid() && kernel.Unpublished(old(kernel.world), id)
      ensures good ==> kernel.world.inners[id] == Inner(snapshot, false) && kernel.faults == old(kernel.faults)
      ensures !good ==> kernel.faults > old(kernel.faults)
    {
      hide Inv;
      hide Later;
      var error := kernel.Update(id, snapshot);
      if error != 0 {
        return false;
      }
      ghost var middle := kernel.world;
      var readback := kernel.Lookup(id);
      LaterTrans(old(kernel.world), middle, kernel.world);
      good := readback == Some(snapshot);
    }

    // Freeze, check the metadata, and check by a refused write that it is frozen.
    method Seal(id: nat, snapshot: Snapshot) returns (good: bool)
      requires kernel.Valid() && id < |kernel.world.inners| && kernel.world.inners[id] == Inner(snapshot, false)
      modifies kernel`world, kernel`traffic, kernel`outcomes, kernel`torn, kernel`faults
      ensures kernel.Valid() && kernel.Unpublished(old(kernel.world), id)
      ensures good ==> kernel.world.inners[id] == Inner(snapshot, true) && kernel.faults == old(kernel.faults)
      ensures !good ==> kernel.faults > old(kernel.faults)
    {
      hide Inv;
      hide Later;
      good := kernel.Freeze(id);
      if !good {
        return;
      }
      ghost var w1 := kernel.world;
      var info := kernel.Metadata(id);
      LaterTrans(old(kernel.world), w1, kernel.world);
      if info == None {
        return false;
      }
      ghost var w2 := kernel.world;
      var error := kernel.Update(id, snapshot);
      LaterTrans(old(kernel.world), w2, kernel.world);
      good := error == EPERM || error == EACCES;
    }

    // publishSnapshot. Either nothing was published and the store is as before, or exactly this
    // snapshot was, and the store follows it even when the final check fails. Every fault is
    // noticed: Published means that each kernel call did what it was asked.
    method PublishSnapshot(snapshot: Snapshot) returns (result: Publication)
      requires Valid() && |snapshot.backends| == MAX_BACKENDS
      modifies this, kernel
      ensures Valid() && Later(old(kernel.world), kernel.world)
      ensures result == Rejected <==> !ValidSnapshot(snapshot, old(generation))
      ensures !Committed(result) ==> generation == old(generation) && activeFd == old(activeFd)
      ensures !Committed(result) ==> kernel.world.published == old(kernel.world.published) && kernel.world.outer == old(kernel.world.outer)
      ensures Committed(result) ==> kernel.world.published == old(kernel.world.published) + [snapshot]
      ensures Committed(result) ==> generation == snapshot.generation == old(generation) + 1
      ensures result == Failed || result == FailedAfterCommit <==> kernel.faults > old(kernel.faults)
      ensures result == Published || result == Rejected <==> kernel.faults == old(kernel.faults)
    {
      hide Inv;
      hide Later;
      hide ValidSnapshot;
      result := Rejected;
      var ok := ValidateCandidateSnapshot(snapshot, generation);
      LaterSame(kernel.world);
      if !ok {
        return;
      }
      GenerationOf(snapshot, generation);
      var candidate := Prepare(snapshot);
      if candidate == None {
        return Failed;
      }
      ghost var w1 := kernel.world;
      ok := kernel.Swap(candidate.value);
      LaterTrans(old(kernel.world), w1, kernel.world);
      if !ok {
        kernel.Close(candidate.value);
        return Failed;
      }
      ghost var w2 := kernel.world;
      result := Commit(candidate.value, snapshot);
      LaterTrans(old(kernel.world), w2, kernel.world);
    }

    lemma GenerationOf(s: Snapshot, g: nat)
      requires ValidSnapshot(s, g)
      ensures s.generation == g + 1 <= U64_MAX
    {
    }

    lemma LaterSame(w: World)
      ensures Later(w, w)
    {
    }

    // After the commit: take over the candidate, close the old descriptor, read the slot back.
    method Commit(candidate: nat, snapshot: Snapshot) returns (result: Publication)
      requires kernel.Valid() && kernel.world.outer == Some(candidate) && activeFd != Some(candidate)
      requires kernel.handles == (if activeFd.Some? then {activeFd.value} else {}) + {candidate}
      requires snapshot.generation == |kernel.world.history| <= U64_MAX
      modifies this, kernel`world, kernel`traffic, kernel`outcomes, kernel`faults, kernel`handles
      ensures Valid() && Later(old(kernel.world), kernel.world)
      ensures kernel.world.published == old(kernel.world.published) && generation == snapshot.generation
      ensures result == if kernel.faults == old(kernel.faults) then Published else FailedAfterCommit
      ensures old(kernel.faults) <= kernel.faults
    {
      hide Inv;
      hide Later;
      var previous := activeFd;
      activeFd := Some(candidate);
      generation := snapshot.generation;
      if previous.Some? {
        kernel.Close(previous.value);
      }
      var published := kernel.LookupOuter();
      result := if published == Some(candidate) then Published else FailedAfterCommit;
    }
  }
}
