/**
 The UDP probe checker of the XDP runtime mode: candidate construction with state import, timed
 rounds, the rotating receive budget, and cancellation on any failure.
 */
module UdpProbeChecker {
  import opened Common
  import opened ProbeHealth
  import opened ProbeNonce
  import opened ProbeRound
  import opened ProbeLog

  const RECEIVE_BUDGET: nat := 256
  const MAX_TARGETS: nat := 64
  const IF_NAMESIZE: nat := 16

  const EINTR: nat := 4
  const EBADF: nat := 9
  const EAGAIN: nat := 11
  const EFAULT: nat := 14
  const EINVAL: nat := 22
  const ENOTSOCK: nat := 88
  const ETIMEDOUT: nat := 110

  datatype IoResult = IoResult(bytes: int, error: nat)
  datatype Incoming = Datagram(data: seq<Byte>) | NoData(error: nat)

  datatype Transition = Transition(id: string, from: Status, to: Status)

  // What the constructor demands of its target list.
  ghost predicate GoodTargets(targets: seq<ProbeTarget>) {
    && |targets| <= MAX_TARGETS
    && (forall i :: 0 <= i < |targets| ==> GoodTarget(targets[i]))
    && (forall i, j :: 0 <= i < j < |targets| ==> targets[i].id != targets[j].id)
  }

  predicate GoodTarget(t: ProbeTarget) {
    t.id != "" && t.ifindex != 0 && t.interfaceName != "" && |t.interfaceName| < IF_NAMESIZE
    && t.probeAddress != 0 && t.probePort != 0
  }

  // The health a target starts with: that of the first earlier snapshot of the same identity.
  function ImportedHealth(target: ProbeTarget, previous: seq<ProbeSnapshot>): Health {
    if previous == [] then INITIAL
    else if SameProbeIdentity(target, previous[0].target) then previous[0].health
    else ImportedHealth(target, previous[1..])
  }

  // A reload that keeps the identity of a target keeps its whole history: the health after the
  // results `later` is the one an uninterrupted checker would show.
  lemma ReloadContinues(target: ProbeTarget, previous: seq<ProbeSnapshot>, k: nat, earlier: seq<bool>, later: seq<bool>)
    requires k < |previous| && SameProbeIdentity(target, previous[k].target)
    requires forall j :: 0 <= j < k ==> !SameProbeIdentity(target, previous[j].target)
    requires previous[k].health == Replay(INITIAL, earlier)
    ensures Replay(ImportedHealth(target, previous), later) == Replay(INITIAL, earlier + later)
    ensures Importable(previous[k].health)
  {
    FirstMatch(target, previous, k);
    ReplayContinues(INITIAL, earlier, later);
    ReplayIsImportable(earlier);
  }

  lemma {:induction false} FirstMatch(target: ProbeTarget, previous: seq<ProbeSnapshot>, k: nat)
    requires k < |previous| && SameProbeIdentity(target, previous[k].target)
    requires forall j :: 0 <= j < k ==> !SameProbeIdentity(target, previous[j].target)
    ensures ImportedHealth(target, previous) == previous[k].health
  {
    if k > 0 {
      FirstMatch(target, previous[1..], k - 1);
    }
  }

  // The results that mean a broken transport rather than an unhealthy target.
  predicate BrokenTransport(io: IoResult) {
    (io.bytes >= 0 && io.error != 0) || (io.bytes < 0 && io.error == 0)
    || io.error == EBADF || io.error == ENOTSOCK || io.error == EFAULT || io.error == EINVAL
  }

  // One receive as its socket will answer it, and how long after the poll time it completes.
  datatype Arrival = Arrival(what: Incoming, delay: int)

  // The k-th receive from now; an exhausted socket would block.
  function Nth(queue: seq<Arrival>, k: nat): Arrival {
    if k < |queue| then queue[k] else Arrival(NoData(EAGAIN), 0)
  }

  function Front(queue: seq<Arrival>): Arrival {
    Nth(queue, 0)
  }

  function QueueOf(incoming: map<int, seq<Arrival>>, handle: int): seq<Arrival> {
    if handle in incoming then incoming[handle] else []
  }

  function Rest<T>(script: seq<T>): seq<T> {
    if script == [] then [] else script[1..]
  }

  // A receive that ends the checker: a broken transport, or a clock that went backwards.
  predicate BadArrival(a: Arrival) {
    a.delay < 0 || (a.what.NoData? && a.what.error in {0, EBADF, ENOTSOCK, EFAULT, EINVAL})
  }

  // A send that ends the checker: a broken transport, or a part of a datagram.
  predicate BadSend(io: IoResult) {
    io.error in {EBADF, ENOTSOCK, EFAULT, EINVAL} || if io.bytes < 0 then io.error == 0 else io.error != 0 || io.bytes != PACKET_BYTES
  }

  /** Sockets and clock of the checker, as finite scripts, those of the sockets by handle. */
  class ProbeTransport {
    var handles: seq<int>         // results of openProbeSocket, negative for a failure
    var sends: map<int, seq<IoResult>>
    var incoming: map<int, seq<Arrival>>
    var elapsed: int              // completion time of the last receive minus the poll time
    ghost var refused: nat        // sockets that could not be opened
    ghost var dry: bool           // the last receive answered EAGAIN
    ghost var asked: seq<int>     // the handles of all receives so far
    ghost var sent: seq<(int, seq<Byte>)>  // handle and packet of all sends so far
    ghost var faults: nat         // bad sends and bad arrivals so far

    constructor (handles: seq<int>, sends: map<int, seq<IoResult>>, incoming: map<int, seq<Arrival>>)
      ensures refused == 0
    {
      this.handles, this.sends, this.incoming, elapsed := handles, sends, incoming, 0;
      refused, dry, asked, sent, faults := 0, false, [], [], 0;
    }

    // What the receives on a socket will still answer.
    function Queue(handle: int): seq<Arrival>
      reads this`incoming
    {
      QueueOf(incoming, handle)
    }

    function Results(handle: int): seq<IoResult>
      reads this`sends
    {
      if handle in sends then sends[handle] else []
    }

    // The next send on a socket; an exhausted one would block.
    function NextSend(handle: int): IoResult
      reads this`sends
    {
      if Results(handle) == [] then IoResult(-1, EAGAIN) else Results(handle)[0]
    }

    method OpenProbeSocket(target: ProbeTarget) returns (handle: int)
      modifies this`handles, this`refused
      ensures refused == old(refused) + if handle < 0 then 1 else 0
    {
      handle := -1;
      if handles != [] {
        handle, handles := handles[0], handles[1..];
      }
      if handle < 0 {
        refused := refused + 1;
      }
    }

    method SendProbePacket(handle: int, packet: seq<Byte>) returns (io: IoResult)
      modifies this`sends, this`sent, this`faults
      ensures sent == old(sent) + [(handle, packet)]
      ensures io == old(NextSend(handle)) && Results(handle) == Rest(old(Results(handle)))
      ensures forall h :: h != handle ==> Results(h) == old(Results(h))
      ensures faults == old(faults) + if BadSend(io) then 1 else 0
    {
      io, sent := NextSend(handle), sent + [(handle, packet)];
      sends := sends[handle := Rest(Results(handle))];
      faults := faults + if BadSend(io) then 1 else 0;
    }

    // recv with MSG_TRUNC into 25 bytes: the true datagram length, and its first 25 bytes.
    method ReceiveProbePacket(handle: int) returns (io: IoResult, reply: seq<Byte>)
      modifies this`incoming, this`elapsed, this`dry, this`asked, this`faults
      ensures asked == old(asked) + [handle] && |reply| == PACKET_BYTES + 1
      ensures var a := old(Front(Queue(handle)));
              elapsed == a.delay && faults == old(faults) + (if BadArrival(a) then 1 else 0)
              && match a.what
                 case NoData(error) => io == IoResult(-1, error) && dry == (error == EAGAIN)
                 case Datagram(data) => io == IoResult(|data|, 0) && !dry
                                        && forall i :: 0 <= i < |data| && i <= PACKET_BYTES ==> reply[i] == data[i]
      ensures Queue(handle) == Rest(old(Queue(handle)))
      ensures forall h :: h != handle ==> QueueOf(incoming, h) == QueueOf(old(incoming), h)
    {
      var next := Front(Queue(handle));
      reply := seq(PACKET_BYTES + 1, i => 0);
      incoming, elapsed, asked := incoming[handle := Rest(Queue(handle))], next.delay, asked + [handle];
      faults := faults + if BadArrival(next) then 1 else 0;
      match next.what {
        case NoData(error) =>
          io, dry := IoResult(-1, error), error == EAGAIN;
        case Datagram(data) =>
          io, dry := IoResult(|data|, 0), false;
          reply := seq(PACKET_BYTES + 1, i requires 0 <= i => if i < |data| then data[i] else 0);
      }
    }

    // The clock, read right after a receive.
    method NowAtCompletion(pollTime: nat) returns (t: int)
      ensures t == pollTime + elapsed
    {
      t := pollTime + elapsed;
    }
  }

  // A receive that says nothing about the round in flight: the loop goes on.
  predicate Stray(p: Probe, a: Arrival) {
    match a.what
    case Datagram(data) => data != p.token
    case NoData(error) => error == EINTR
  }

  // What the receive loop makes of a round in flight whose socket answers with `queue`.
  ghost function Verdict(p: Probe, t: nat, queue: seq<Arrival>): Fate {
    var a := Front(queue);
    if p.probeDeadline <= t + a.delay then Missed
    else if a.what == Datagram(p.token) then Echoed
    else if Stray(p, a) then Verdict(p, t, queue[1..])
    else if a.what == NoData(EAGAIN) then Quiet else Missed
  }

  // The first k receives are strays, all of them before the deadline.
  ghost predicate OnlyStrays(p: Probe, t: nat, queue: seq<Arrival>, k: nat) {
    k <= |queue| && forall j :: 0 <= j < k ==> Stray(p, queue[j]) && t + queue[j].delay < p.probeDeadline
  }

  // Behind strays, receive k is the packet of the round, before the deadline.
  ghost predicate AnsweredAt(p: Probe, t: nat, queue: seq<Arrival>, k: nat) {
    OnlyStrays(p, t, queue, k) && k < |queue| && queue[k].what == Datagram(p.token) && t + queue[k].delay < p.probeDeadline
  }

  // Behind strays, receive k completes at or after the deadline, whatever it is, or fails.
  ghost predicate FailsAt(p: Probe, t: nat, queue: seq<Arrival>, k: nat) {
    OnlyStrays(p, t, queue, k)
    && var a := Nth(queue, k);
       p.probeDeadline <= t + a.delay || (a.what.NoData? && a.what.error != EAGAIN && a.what.error != EINTR)
  }

  lemma StrayFirst(p: Probe, t: nat, queue: seq<Arrival>, k: nat)
    requires queue != [] && Stray(p, queue[0]) && t + queue[0].delay < p.probeDeadline
    ensures OnlyStrays(p, t, queue[1..], k) ==> OnlyStrays(p, t, queue, k + 1)
    ensures k > 0 && OnlyStrays(p, t, queue, k) ==> OnlyStrays(p, t, queue[1..], k - 1)
    ensures Nth(queue[1..], k) == Nth(queue, k + 1)
  {
    if k > 0 && OnlyStrays(p, t, queue, k) {
      assert forall j :: 0 <= j < k - 1 ==> queue[1..][j] == queue[j + 1];
    }
  }

  // The verdict is a success exactly when the packet of the round is among the receives, before
  // the deadline, behind nothing but strays that also came before the deadline.
  lemma {:induction false} EchoIsAnswer(p: Probe, t: nat, queue: seq<Arrival>)
    ensures Verdict(p, t, queue) == Echoed <==> exists k: nat :: AnsweredAt(p, t, queue, k)
    decreases |queue|
  {
    if queue != [] && Stray(p, queue[0]) && t + queue[0].delay < p.probeDeadline {
      EchoIsAnswer(p, t, queue[1..]);
      if k: nat :| AnsweredAt(p, t, queue, k) {
        StrayFirst(p, t, queue, k);
        assert AnsweredAt(p, t, queue[1..], k - 1);
      }
      if k: nat :| AnsweredAt(p, t, queue[1..], k) {
        StrayFirst(p, t, queue, k);
        assert AnsweredAt(p, t, queue, k + 1);
      }
    } else if Verdict(p, t, queue) == Echoed {
      assert AnsweredAt(p, t, queue, 0);
    }
  }

  // It is a failure exactly when, behind such strays, a receive is late or reports an error.
  lemma {:induction false} MissIsFailure(p: Probe, t: nat, queue: seq<Arrival>)
    ensures Verdict(p, t, queue) == Missed <==> exists k: nat :: FailsAt(p, t, queue, k)
    decreases |queue|
  {
    if queue != [] && Stray(p, queue[0]) && t + queue[0].delay < p.probeDeadline {
      MissIsFailure(p, t, queue[1..]);
      if k: nat :| FailsAt(p, t, queue, k) {
        StrayFirst(p, t, queue, k);
        StrayFirst(p, t, queue, k - 1);
        assert FailsAt(p, t, queue[1..], k - 1);
      }
      if k: nat :| FailsAt(p, t, queue[1..], k) {
        StrayFirst(p, t, queue, k);
        assert FailsAt(p, t, queue, k + 1);
      }
    } else if Verdict(p, t, queue) == Missed {
      assert FailsAt(p, t, queue, 0);
    }
  }

  // A receive for handle h came after the first n receives.
  ghost predicate AskedSince(asked: seq<int>, n: nat, h: int) {
    exists i :: n <= i < |asked| && asked[i] == h
  }

  lemma AskedStays(before: seq<int>, after: seq<int>, n: nat)
    requires before <= after
    ensures forall h :: AskedSince(before, n, h) ==> AskedSince(after, n, h)
    ensures forall h :: AskedSince(after, |before|, h) && n <= |before| ==> AskedSince(after, n, h)
  {
    forall h | AskedSince(before, n, h)
      ensures AskedSince(after, n, h)
    {
      var i :| n <= i < |before| && before[i] == h;
      assert after[i] == h;
    }
  }

  // The reported transitions of one target, from its old state to its new one: exactly the
  // changes, each starting where the previous one ended.
  ghost predicate Chain(ts: seq<Transition>, id: string, from: Status, to: Status) {
    if ts == [] then from == to
    else
      var last := ts[|ts| - 1];
      if last.id == id then last.to == to && last.from != to && Chain(ts[..|ts| - 1], id, from, last.from)
      else Chain(ts[..|ts| - 1], id, from, to)
  }

  lemma ChainExtend(ts: seq<Transition>, t: Transition, id: string, from: Status, to: Status)
    requires Chain(ts, id, from, to)
    ensures t.id != id ==> Chain(ts + [t], id, from, to)
    ensures t.id == id && t.from == to != t.to ==> Chain(ts + [t], id, from, t.to)
  {
    assert (ts + [t])[..|ts + [t]| - 1] == ts;
  }

  // The transition list after target p completed a round.
  function Report(ts: seq<Transition>, p: Probe, success: bool): seq<Transition> {
    var from, to := p.snapshot.health.status, Step(p.snapshot.health, success).status;
    if from != to then ts + [Transition(p.snapshot.target.id, from, to)] else ts
  }

  ghost predicate DistinctIds(probes: seq<Probe>) {
    forall i, j :: 0 <= i < j < |probes| ==> probes[i].snapshot.target.id != probes[j].snapshot.target.id
  }

  ghost predicate SameTargets(before: seq<Probe>, after: seq<Probe>) {
    |before| == |after| && forall i :: 0 <= i < |after| ==> after[i].snapshot.target == before[i].snapshot.target
  }

  // The targets stay what they are and their logs only grow.
  ghost predicate Continues(before: seq<Probe>, after: seq<Probe>, oldLogs: seq<seq<Event>>, newLogs: seq<seq<Event>>) {
    SameTargets(before, after) && |oldLogs| == |newLogs| && forall i :: 0 <= i < |newLogs| ==> oldLogs[i] <= newLogs[i]
  }

  lemma ContinuesSelf(probes: seq<Probe>, logs: seq<seq<Event>>)
    ensures Continues(probes, probes, logs, logs)
  {
  }

  lemma SameLength(a: seq<Probe>, b: seq<Probe>, l: seq<seq<Event>>, m: seq<seq<Event>>)
    requires Continues(a, b, l, m)
    ensures |a| == |b|
  {
  }

  lemma ContinuesOn(a: seq<Probe>, b: seq<Probe>, c: seq<Probe>, l: seq<seq<Event>>, m: seq<seq<Event>>, n: seq<seq<Event>>)
    requires Continues(a, b, l, m) && Continues(b, c, m, n)
    ensures Continues(a, c, l, n) && |c| == |a|
  {
  }

  lemma ContinuesAt(a: seq<Probe>, b: seq<Probe>, l: seq<seq<Event>>, m: seq<seq<Event>>, i: nat)
    requires i < |a| == |b| && i < |l| == |m| && b == a[i := b[i]] && m == l[i := m[i]]
    requires a[i].snapshot.target == b[i].snapshot.target && l[i] <= m[i]
    ensures Continues(a, b, l, m)
  {
  }

  // The list reports exactly the status changes of every target since `before`.
  ghost predicate Reported(before: seq<Probe>, after: seq<Probe>, ts: seq<Transition>) {
    && |before| == |after|
    && (forall i :: 0 <= i < |after| ==> after[i].snapshot.target == before[i].snapshot.target)
    && (forall i :: 0 <= i < |after| ==>
          Chain(ts, after[i].snapshot.target.id, before[i].snapshot.health.status, after[i].snapshot.health.status))
  }

  lemma ReportedCompletion(before: seq<Probe>, after: seq<Probe>, ts: seq<Transition>, i: nat, success: bool)
    requires Reported(before, after, ts) && DistinctIds(after) && i < |after|
    ensures Reported(before, after[i := Completed(after[i], success)], Report(ts, after[i], success))
  {
    hide Chain;
    var now, ts' := after[i := Completed(after[i], success)], Report(ts, after[i], success);
    var from, to := after[i].snapshot.health.status, now[i].snapshot.health.status;
    var t := Transition(after[i].snapshot.target.id, from, to);
    forall j | 0 <= j < |now|
      ensures Chain(ts', now[j].snapshot.target.id, before[j].snapshot.health.status, now[j].snapshot.health.status)
    {
      ChainExtend(ts, t, after[j].snapshot.target.id, before[j].snapshot.health.status, after[j].snapshot.health.status);
    }
  }

  // Starting a round is not a change of status.
  lemma ReportedStart(before: seq<Probe>, after: seq<Probe>, ts: seq<Transition>, i: nat, t: nat)
    requires Reported(before, after, ts) && DistinctIds(after) && i < |after|
    ensures forall token ::
              Reported(before, after[i := Started(after[i], t, token).(awaitingReply := true)], ts)
              && Reported(before, after[i := Completed(Started(after[i], t, token), false)], Report(ts, after[i], false))
  {
    hide Chain;
    forall token: seq<Byte>
      ensures Reported(before, after[i := Started(after[i], t, token).(awaitingReply := true)], ts)
      ensures Reported(before, after[i := Completed(Started(after[i], t, token), false)], Report(ts, after[i], false))
    {
      var started := after[i := Started(after[i], t, token)];
      assert Reported(before, started, ts);
      ReportedCompletion(before, started, ts, i, false);
      assert started[i := Completed(started[i], false)] == after[i := Completed(Started(after[i], t, token), false)];
    }
  }

  lemma ReportedNothing(before: seq<Probe>)
    ensures Reported(before, before, [])
  {
  }

  class UdpProbeChecker {
    const transport: ProbeTransport
    const nonces: ProbeNonceSequence
    var probes: seq<Probe>
    var hasPolled: bool
    var lastPollTime: nat
    var receiveCursor: nat
    var lastReceiveEventCount: nat
    ghost var logs: seq<seq<Event>>
    ghost var imported: seq<Health>
    ghost const base: nat   // the last sequence number issued before this checker existed

    // Probe p, in place of target i, agrees with the log of target i.
    ghost predicate Logged(i: nat, p: Probe)
      requires i < |logs| == |imported|
      reads this`logs, this`imported, nonces
    {
      LogOk(logs[i], nonces.epoch, base, nonces.lastSequence) && Agrees(p, logs[i], imported[i], nonces.epoch)
    }

    ghost predicate Shape()
      reads this`probes, this`logs, this`imported, this`receiveCursor, this`lastReceiveEventCount, nonces
    {
      && nonces.Valid() && base <= nonces.lastSequence
      && |probes| == |logs| == |imported| <= MAX_TARGETS
      && (receiveCursor == 0 || receiveCursor < |probes|) && lastReceiveEventCount <= RECEIVE_BUDGET
      && DistinctIds(probes)
    }

    // Every open target agrees with its log.
    ghost predicate Valid()
      reads this`probes, this`logs, this`imported, this`receiveCursor, this`lastReceiveEventCount, nonces
    {
      Shape() && forall i :: 0 <= i < |probes| && 0 <= probes[i].handle ==> Logged(i, probes[i])
    }

    // After a failure nothing is in flight and every target is closed.
    ghost predicate Terminated()
      reads this`probes
    {
      forall i :: 0 <= i < |probes| ==> !probes[i].awaitingReply && probes[i].token == NO_TOKEN && probes[i].handle < 0
    }

    constructor Empty(transport: ProbeTransport, nonces: ProbeNonceSequence)
      requires nonces.Valid()
      ensures Valid() && probes == [] && !hasPolled && base == nonces.lastSequence
      ensures this.transport == transport && this.nonces == nonces
    {
      this.transport, this.nonces, probes, logs, imported := transport, nonces, [], [], [];
      hasPolled, lastPollTime, receiveCursor, lastReceiveEventCount := false, 0, 0, 0;
      base := nonces.lastSequence;
    }

    // cancelAllProbes: tokens are cancelled before the sockets are closed.
    method CancelAllProbes()
      requires Shape()
      modifies this`probes
      ensures Valid() && Terminated() && |probes| == |old(probes)| && logs == old(logs)
      ensures forall i :: 0 <= i < |probes| ==> probes[i].snapshot == old(probes[i]).snapshot
    {
      for i := 0 to |probes|
        invariant |probes| == |old(probes)| && Shape()
        invariant forall j :: 0 <= j < |probes| ==> probes[j].snapshot == old(probes[j]).snapshot
        invariant forall j :: 0 <= j < i ==> !probes[j].awaitingReply && probes[j].token == NO_TOKEN && probes[j].handle < 0
      {
        probes := probes[i := probes[i].(awaitingReply := false, token := NO_TOKEN, handle := -1)];
      }
    }

    // completeProbeResult: cancels the token, counts the result, reports a change of status. The
    // ghost event is what the log remembers of the round in flight.
    method CompleteProbeResult(i: nat, success: bool, ghost e: Event, transitions: seq<Transition>)
      returns (ts: seq<Transition>)
      requires Shape() && i < |probes| && Logged(i, probes[i].(awaitingReply := true))
      requires !e.Sent? && e.Echo? == success && probes[i].nextProbeTime <= e.time + INTERVAL
      requires e.Echo? ==> e.datagram == probes[i].token && e.time < probes[i].probeDeadline
      requires e.Miss? && e.cause == DeadlinePassed ==> probes[i].probeDeadline <= e.time
      modifies this`probes, this`logs
      ensures Shape() && Logged(i, probes[i])
      ensures probes == old(probes)[i := Completed(old(probes[i]), success)]
      ensures logs == old(logs)[i := old(logs[i]) + [e]]
      ensures ts == Report(transitions, old(probes[i]), success)
    {
      hide LogOk;
      hide Agrees;
      LogResult(probes[i].(awaitingReply := true), logs[i], imported[i], nonces.epoch, base, nonces.lastSequence, e);
      var p := probes[i].(awaitingReply := false, token := NO_TOKEN);
      var previous := p.snapshot.health.status;
      var h := p.snapshot.health;
      if success {
        h := h.(failures := 0, successes := Min(h.successes + 1, 2));
        if h.successes == 2 {
          h := h.(status := Healthy);
        }
      } else {
        h := h.(successes := 0, failures := Min(h.failures + 1, 3));
        if h.failures == 3 {
          h := h.(status := Unhealthy);
        }
      }
      probes := probes[i := p.(snapshot := p.snapshot.(health := h))];
      logs := logs[i := logs[i] + [e]];
      ts := transitions;
      if previous != h.status {
        ts := ts + [Transition(p.snapshot.target.id, previous, h.status)];
      }
    }

    // A new sequence number keeps every log, and the round that uses it extends the log of
    // target i.
    lemma NextNumber(i: nat, t: nat, last: nat)
      requires Shape() && nonces.lastSequence == last + 1 && base <= last
      requires forall j :: 0 <= j < |probes| && 0 <= probes[j].handle ==>
                 LogOk(logs[j], nonces.epoch, base, last) && Agrees(probes[j], logs[j], imported[j], nonces.epoch)
      requires i < |probes| && 0 <= probes[i].handle && !probes[i].awaitingReply && probes[i].nextProbeTime <= t
      ensures Valid()
      ensures LogOk(logs[i] + [Sent(t, nonces.lastSequence)], nonces.epoch, base, nonces.lastSequence)
      ensures Agrees(Started(probes[i], t, Encode(nonces.epoch, nonces.lastSequence)).(awaitingReply := true),
                     logs[i] + [Sent(t, nonces.lastSequence)], imported[i], nonces.epoch)
    {
      hide LogOk;
      hide Agrees;
      forall j | 0 <= j < |probes| && 0 <= probes[j].handle
        ensures Logged(j, probes[j])
      {
        LogOkLater(logs[j], nonces.epoch, base, last, nonces.lastSequence);
      }
      LogSend(probes[i], logs[i], imported[i], nonces.epoch, base, last, t);
    }

    // The send of a new round. A send error completes it at once; a send that is no datagram ends
    // the checker.
    method Transmit(i: nat, t: nat, transitions: seq<Transition>) returns (ts: seq<Transition>, ok: bool, ghost sent: bool)
      requires Shape() && i < |probes| && 0 <= probes[i].handle && probes[i].nextProbeTime == t + INTERVAL
      requires Logged(i, probes[i].(awaitingReply := true))
      requires forall j :: 0 <= j < |probes| && j != i && 0 <= probes[j].handle ==> Logged(j, probes[j])
      modifies this`probes, this`logs, transport`sends, transport`sent, transport`faults
      ensures Shape() && (ok ==> Valid())
      ensures transport.sent == old(transport.sent) + [(old(probes[i].handle), old(probes[i].token))]
      ensures transport.faults == old(transport.faults) + if ok then 0 else 1
      ensures sent <==> old(transport.NextSend(probes[i].handle)) == IoResult(PACKET_BYTES, 0)
      ensures ok <==> !BadSend(old(transport.NextSend(probes[i].handle)))
      ensures forall h :: h != old(probes[i].handle) ==> transport.NextSend(h) == old(transport.NextSend(h))
      ensures !ok ==> probes == old(probes) && logs == old(logs)
      ensures ok ==> probes == old(probes)[i := if sent then old(probes[i]).(awaitingReply := true) else Completed(old(probes[i]), false)]
      ensures ok ==> logs == if sent then old(logs)
                             else old(logs)[i := old(logs[i]) + [Miss(t, IoFailure(old(transport.NextSend(probes[i].handle)).error))]]
      ensures ok ==> ts == if sent then transitions else Report(transitions, old(probes[i]), false)
    {
      hide LogOk;
      hide Agrees;
      ts, ok, sent := transitions, false, false;
      var io := transport.SendProbePacket(probes[i].handle, probes[i].token);
      if BrokenTransport(io) {
        return;
      }
      if io.bytes != PACKET_BYTES {
        if io.bytes >= 0 {
          return;
        }
        ts := CompleteProbeResult(i, false, Miss(t, IoFailure(io.error)), transitions);
      } else {
        probes := probes[i := probes[i].(awaitingReply := true)];
        sent := true;
      }
      ok := true;
    }

    // The second half of a due target: a fresh packet is sent. `ok` is false for the failures
    // that end the checker, `sent` for a send error, which completes the round at once.
    method StartRound(i: nat, t: nat, transitions: seq<Transition>)
      returns (ts: seq<Transition>, ok: bool, ghost sent: bool, ghost token: seq<Byte>)
      requires Valid() && i < |probes| && 0 <= probes[i].handle
      requires !probes[i].awaitingReply && probes[i].nextProbeTime <= t
      modifies this`probes, this`logs, nonces`lastSequence, transport`sends, transport`sent, transport`faults
      ensures Shape() && Continues(old(probes), probes, old(logs), logs)
      ensures ok ==> transport.sent == old(transport.sent) + [(old(probes[i].handle), token)]
      ensures ok ==> Valid() && token == Encode(nonces.epoch, nonces.lastSequence)
      ensures ok ==> probes == old(probes)[i := if sent then Started(old(probes[i]), t, token).(awaitingReply := true)
                                             else Completed(Started(old(probes[i]), t, token), false)]
      ensures ok ==> ts == if sent then transitions else Report(transitions, old(probes[i]), false)
      ensures ok ==> (sent <==> old(transport.NextSend(probes[i].handle)) == IoResult(PACKET_BYTES, 0)) && transport.faults == old(transport.faults)
      ensures transport.faults >= old(transport.faults)
      ensures !ok ==> nonces.lastSequence == U64_MAX || transport.faults > old(transport.faults)
      ensures forall h :: h != old(probes[i].handle) ==> transport.NextSend(h) == old(transport.NextSend(h))
    {
      hide Continues;
      hide LogOk;
      hide Agrees;
      hide Encode;
      ts, ok, sent, token := transitions, false, false, [];
      ContinuesSelf(probes, logs);
      ghost var last := nonces.lastSequence;
      assert forall j :: 0 <= j < |probes| && 0 <= probes[j].handle ==> Logged(j, probes[j]);
      var packet, issued := nonces.GenerateProbePacket();
      if !issued {
        return;
      }
      token := packet;
      NextNumber(i, t, last);
      probes := probes[i := Started(probes[i], t, packet)];
      logs := logs[i := logs[i] + [Sent(t, nonces.lastSequence)]];
      ContinuesAt(old(probes), probes, old(logs), logs, i);
      ts, ok, sent := Transmit(i, t, transitions);
      ContinuesAt(old(probes), probes, old(logs), logs, i);
    }

    // The schedule of a round in flight.
    lemma InFlight(i: nat)
      requires i < |probes| == |logs| == |imported| && Logged(i, probes[i]) && probes[i].awaitingReply
      ensures probes[i].nextProbeTime == probes[i].probeDeadline + (INTERVAL - TIMEOUT)
      ensures Logged(i, probes[i].(awaitingReply := true)) && |probes[i].token| == PACKET_BYTES
    {
      assert probes[i].(awaitingReply := true) == probes[i];
    }

    // One target of the send phase; the deadline has priority over everything else.
    method SendOne(i: nat, t: nat, transitions: seq<Transition>, ghost before: seq<Probe>)
      returns (ts: seq<Transition>, ok: bool, ghost fate: Fate, ghost token: seq<Byte>)
      requires Valid() && i < |probes| && Reported(before, probes, transitions)
      modifies this`probes, this`logs, nonces`lastSequence, transport`sends, transport`sent, transport`faults
      ensures Shape() && Continues(old(probes), probes, old(logs), logs)
      ensures ok ==> transport.sent == if probes[i].nextProbeTime == old(probes[i].nextProbeTime) then old(transport.sent)
                                       else old(transport.sent) + [(probes[i].handle, token)]
      ensures ok ==> Valid() && Reported(before, probes, ts) && 0 <= probes[i].handle
      ensures ok && probes[i].awaitingReply ==> fate == Quiet
      ensures ok ==> probes == old(probes)[i := AfterSend(old(probes[i]), t, fate, token)]
      ensures ok ==> fate == Quiet || fate == SendFailed
      ensures ok ==> (fate == SendFailed <==> IsDue(old(probes[i]), t) && old(transport.NextSend(probes[i].handle)) != IoResult(PACKET_BYTES, 0))
      ensures transport.faults >= old(transport.faults) && (ok ==> transport.faults == old(transport.faults))
      ensures !ok ==> old(probes[i].handle) < 0 || nonces.lastSequence == U64_MAX || transport.faults > old(transport.faults)
      ensures forall h :: h != old(probes[i].handle) ==> transport.NextSend(h) == old(transport.NextSend(h))
    {
      hide LogOk;
      hide Agrees;
      hide Reported;
      ts, ok, fate, token := transitions, true, Quiet, [];
      if probes[i].handle < 0 {
        return ts, false, Quiet, [];
      }
      if probes[i].awaitingReply && probes[i].probeDeadline <= t {
        InFlight(i);
        ReportedCompletion(before, probes, ts, i, false);
        ts := CompleteProbeResult(i, false, Miss(t, DeadlinePassed), ts);
      }
      if probes[i].awaitingReply || t < probes[i].nextProbeTime {
        return;
      }
      ghost var sent;
      ReportedCompletion(before, probes, ts, i, false);
      ReportedStart(before, probes, ts, i, t);
      ts, ok, sent, token := StartRound(i, t, ts);
      fate := if sent then Quiet else SendFailed;
    }

    // sendDueProbePackets.
    method SendDueProbePackets(t: nat) returns (ts: seq<Transition>, ok: bool, ghost fates: seq<Fate>, ghost tokens: seq<seq<Byte>>)
      requires Valid()
      modifies this`probes, this`logs, nonces`lastSequence, transport`sends, transport`sent, transport`faults
      ensures Shape() && Continues(old(probes), probes, old(logs), logs) && |probes| == |fates| == |tokens|
      ensures ok ==> Valid() && Reported(old(probes), probes, ts)
      ensures ok ==> forall j :: 0 <= j < |probes| && probes[j].awaitingReply ==> fates[j] == Quiet
      ensures ok ==> forall j :: 0 <= j < |probes| ==> 0 <= probes[j].handle
      ensures ok ==> forall j :: 0 <= j < |probes| ==> probes[j] == AfterSend(old(probes[j]), t, fates[j], tokens[j])
      ensures ok ==> forall j :: 0 <= j < |probes| ==> fates[j] == Quiet || fates[j] == SendFailed
      ensures ok ==> forall j :: 0 <= j < |probes| && OwnSocket(old(probes), j) ==>
                (fates[j] == SendFailed <==> IsDue(old(probes[j]), t) && old(transport.NextSend(probes[j].handle)) != IoResult(PACKET_BYTES, 0))
      ensures transport.faults >= old(transport.faults) && (ok ==> transport.faults == old(transport.faults))
      ensures !ok ==> AnyClosed(old(probes)) || nonces.lastSequence == U64_MAX || transport.faults > old(transport.faults)
    {
      hide SentAs;
      hide SentSoFar;
      hide OwnSocket;
      hide Continues;
      hide IsDue;
      hide LogOk;
      hide Agrees;
      hide Reported;
      hide AfterSend;
      ts, ok, fates, tokens := [], true, seq(|probes|, _ => Quiet), seq(|probes|, _ => []);
      ReportedNothing(probes);
      ContinuesSelf(probes, logs);
      SentNone(probes, t, fates, tokens);
      for i := 0 to |probes|
        invariant ok && Valid() && Continues(old(probes), probes, old(logs), logs) && |probes| == |fates| == |tokens|
        invariant Reported(old(probes), probes, ts)
        invariant SentSoFar(old(probes), probes, t, fates, tokens, i)
        invariant transport.faults == old(transport.faults)
        invariant forall j :: i <= j < |probes| && OwnSocket(old(probes), j) ==>
                    transport.NextSend(old(probes[j].handle)) == old(transport.NextSend(probes[j].handle))
        invariant forall j :: 0 <= j < i && OwnSocket(old(probes), j) ==>
                    (fates[j] == SendFailed <==> IsDue(old(probes[j]), t) && old(transport.NextSend(probes[j].handle)) != IoResult(PACKET_BYTES, 0))
      {
        ghost var fate, token, middle, logged := Quiet, [], probes, logs;
        SentParts(old(probes), probes, t, fates, tokens, i);
        OwnSocketsApart(old(probes), i);
        ts, ok, fate, token := SendOne(i, t, ts, old(probes));
        ContinuesOn(old(probes), middle, probes, old(logs), logged, logs);
        if !ok {
          return;
        }
        SentNext(old(probes), middle, probes, t, fates, tokens, i, fate, token);
        fates, tokens := fates[i := fate], tokens[i := token];
      }
      SentParts(old(probes), probes, t, fates, tokens, |probes|);
    }

    // What the receives for target i will answer.
    function Arrivals(i: nat): seq<Arrival>
      requires i < |probes|
      reads this`probes, transport`incoming
    {
      transport.Queue(probes[i].handle)
    }

    function NextArrival(i: nat): Arrival
      requires i < |probes|
      reads this`probes, transport`incoming
    {
      Front(Arrivals(i))
    }

    // One receive for target i. `more` asks for another one; `wrong` is a failure that ends the
    // checker. Only the exact packet of the round in flight, before its deadline, is a success.
    method ReceiveOne(i: nat, t: nat, transitions: seq<Transition>, ghost before: seq<Probe>)
      returns (ts: seq<Transition>, more: bool, wrong: bool, ghost fate: Fate)
      requires Valid() && i < |probes| && 0 <= probes[i].handle && probes[i].awaitingReply
      requires lastReceiveEventCount < RECEIVE_BUDGET && Reported(before, probes, transitions)
      requires probes[i].nextProbeTime <= t + INTERVAL
      modifies this`probes, this`logs, this`lastReceiveEventCount, transport`incoming, transport`dry, transport`asked
      modifies transport`elapsed, transport`faults
      ensures Shape() && Continues(old(probes), probes, old(logs), logs)
      ensures !wrong ==> Valid() && Reported(before, probes, ts)
      ensures !wrong ==> probes == old(probes)[i := AfterReceive(old(probes[i]), fate)] && fate != SendFailed
      ensures !wrong && !more ==> !probes[i].awaitingReply || transport.dry
      ensures wrong <==> BadArrival(old(NextArrival(i)))
      ensures transport.faults == old(transport.faults) + if wrong then 1 else 0
      ensures old(NextArrival(i)).what == Datagram(old(probes[i].token)) && t <= t + old(NextArrival(i)).delay < old(probes[i].probeDeadline) ==>
                probes == old(probes)[i := Completed(old(probes[i]), true)]
      ensures !wrong && old(probes[i].probeDeadline) <= t + old(NextArrival(i)).delay ==>
                probes == old(probes)[i := Completed(old(probes[i]), false)]
      ensures !wrong && !more ==> fate == Verdict(old(probes[i]), t, old(Arrivals(i)))
      ensures more ==> fate == Quiet && !wrong && Stray(old(probes[i]), old(NextArrival(i))) && old(Arrivals(i)) != []
      ensures more ==> t + old(NextArrival(i)).delay < old(probes[i].probeDeadline)
      ensures transport.Queue(old(probes[i].handle)) == Rest(old(Arrivals(i)))
      ensures forall h :: h != old(probes[i].handle) ==> QueueOf(transport.incoming, h) == QueueOf(old(transport.incoming), h)
      ensures transport.asked == old(transport.asked) + [old(probes[i].handle)]
      ensures !wrong ==> lastReceiveEventCount == old(lastReceiveEventCount) + if old(NextArrival(i)).what == NoData(EAGAIN) then 0 else 1
      ensures lastReceiveEventCount <= old(lastReceiveEventCount) + 1 && old(lastReceiveEventCount) <= lastReceiveEventCount
    {
      hide Continues;
      hide LogOk;
      hide Agrees;
      hide Reported;
      hide Encode;
      ts, more, wrong, fate := transitions, false, false, Quiet;
      InFlight(i);
      ContinuesSelf(probes, logs);
      ReportedCompletion(before, probes, ts, i, false);
      ReportedCompletion(before, probes, ts, i, true);
      ghost var a := NextArrival(i);
      var io, reply := transport.ReceiveProbePacket(probes[i].handle);
      if BrokenTransport(io) {
        return ts, false, true, Quiet;
      }
      assert a.what == Datagram(probes[i].token) ==> reply[..PACKET_BYTES] == probes[i].token;
      var wouldBlock := io.bytes < 0 && io.error == EAGAIN;
      if !wouldBlock {
        lastReceiveEventCount := lastReceiveEventCount + 1;
      }
      var completedAt := transport.NowAtCompletion(t);
      if completedAt < t {
        return ts, false, true, Quiet;
      }
      if probes[i].probeDeadline <= completedAt {
        fate := Missed;
        ts := CompleteProbeResult(i, false, Miss(completedAt, DeadlinePassed), ts);
        ContinuesAt(old(probes), probes, old(logs), logs, i);
      } else if wouldBlock {
      } else if io.bytes < 0 {
        if io.error == EINTR {
          more := true;
        } else {
          fate := Missed;
          ts := CompleteProbeResult(i, false, Miss(completedAt, IoFailure(io.error)), ts);
          ContinuesAt(old(probes), probes, old(logs), logs, i);
        }
      } else if io.bytes == PACKET_BYTES && reply[..PACKET_BYTES] == probes[i].token {
        fate := Echoed;
        assert a.what.data == reply[..PACKET_BYTES];
        ts := CompleteProbeResult(i, true, Echo(completedAt, a.what.data), ts);
        ContinuesAt(old(probes), probes, old(logs), logs, i);
      } else {
        more := true;
      }
    }

    // The receive loop of one target: until it is answered, dry, or the budget is spent.
    method ReceiveTarget(i: nat, t: nat, transitions: seq<Transition>, ghost before: seq<Probe>)
      returns (ts: seq<Transition>, wrong: bool, ghost fate: Fate)
      requires Valid() && i < |probes| && 0 <= probes[i].handle && Reported(before, probes, transitions)
      requires probes[i].nextProbeTime <= t + INTERVAL
      modifies this`probes, this`logs, this`lastReceiveEventCount, transport`incoming, transport`dry, transport`asked
      modifies transport`elapsed, transport`faults
      ensures Shape() && Continues(old(probes), probes, old(logs), logs) && old(lastReceiveEventCount) <= lastReceiveEventCount
      ensures old(transport.asked) <= transport.asked
      ensures old(probes[i].awaitingReply) && old(lastReceiveEventCount) < RECEIVE_BUDGET ==>
                AskedSince(transport.asked, |old(transport.asked)|, old(probes[i].handle))
      ensures !wrong ==> Valid() && Reported(before, probes, ts)
      ensures !wrong ==> !probes[i].awaitingReply || transport.dry || RECEIVE_BUDGET <= lastReceiveEventCount
      ensures !wrong ==> probes == old(probes)[i := AfterReceive(old(probes[i]), fate)] && fate != SendFailed
      ensures transport.faults >= old(transport.faults) && (wrong <==> transport.faults > old(transport.faults))
      ensures !wrong && lastReceiveEventCount < RECEIVE_BUDGET && old(probes[i].awaitingReply) ==>
                fate == Verdict(old(probes[i]), t, old(Arrivals(i)))
      ensures forall h :: h != old(probes[i].handle) ==> QueueOf(transport.incoming, h) == QueueOf(old(transport.incoming), h)
      ensures lastReceiveEventCount - old(lastReceiveEventCount) <= |transport.asked| - |old(transport.asked)|
    {
      hide LogOk;
      hide Agrees;
      hide Reported;
      ts, wrong, fate := transitions, false, Quiet;
      var more := true;
      while more && probes[i].awaitingReply && lastReceiveEventCount < RECEIVE_BUDGET
        invariant !wrong && Valid() && Continues(old(probes), probes, old(logs), logs) && Reported(before, probes, ts) && fate != SendFailed
        invariant old(lastReceiveEventCount) <= lastReceiveEventCount
        invariant probes == old(probes)[i := AfterReceive(old(probes[i]), fate)]
        invariant more ==> fate == Quiet
        invariant old(transport.asked) <= transport.asked
        invariant lastReceiveEventCount - old(lastReceiveEventCount) <= |transport.asked| - |old(transport.asked)|
        invariant transport.asked == old(transport.asked) ==> probes == old(probes) && more && lastReceiveEventCount == old(lastReceiveEventCount)
        invariant transport.asked != old(transport.asked) ==> AskedSince(transport.asked, |old(transport.asked)|, old(probes[i].handle))
        invariant !more ==> !probes[i].awaitingReply || transport.dry
        invariant transport.faults == old(transport.faults)
        invariant forall h :: h != old(probes[i].handle) ==> QueueOf(transport.incoming, h) == QueueOf(old(transport.incoming), h)
        invariant more ==> probes == old(probes) && Verdict(probes[i], t, Arrivals(i)) == Verdict(old(probes[i]), t, old(Arrivals(i)))
        invariant !more ==> fate == Verdict(old(probes[i]), t, old(Arrivals(i)))
        decreases |transport.Queue(old(probes[i].handle))|, more
      {
        ghost var asked := transport.asked;
        ts, more, wrong, fate := ReceiveOne(i, t, ts, before);
        assert transport.asked[|asked|] == old(probes[i].handle);
        if wrong {
          return;
        }
      }
    }

    // One target of the receive phase. A target that is not waiting keeps what the send phase
    // made of it.
    method ReceiveAt(i: nat, t: nat, transitions: seq<Transition>, ghost before: seq<Probe>, ghost sendFate: Fate)
      returns (ts: seq<Transition>, wrong: bool, ghost fate: Fate)
      requires Valid() && i < |probes| && 0 <= probes[i].handle && Reported(before, probes, transitions)
      requires probes[i].nextProbeTime <= t + INTERVAL && ReceivedAs(probes[i], probes[i], sendFate, sendFate)
      modifies this`probes, this`logs, this`lastReceiveEventCount, transport`incoming, transport`dry, transport`asked
      modifies transport`elapsed, transport`faults
      ensures Shape() && Continues(old(probes), probes, old(logs), logs) && old(lastReceiveEventCount) <= lastReceiveEventCount
      ensures old(transport.asked) <= transport.asked
      ensures old(probes[i].awaitingReply) && old(lastReceiveEventCount) < RECEIVE_BUDGET ==>
                AskedSince(transport.asked, |old(transport.asked)|, old(probes[i].handle))
      ensures !wrong ==> Valid() && Reported(before, probes, ts)
      ensures !wrong ==> probes == old(probes)[i := probes[i]] && ReceivedAs(old(probes[i]), probes[i], sendFate, fate)
      ensures !wrong ==> probes[i].handle == old(probes[i].handle) && probes[i].nextProbeTime == old(probes[i].nextProbeTime)
      ensures transport.faults >= old(transport.faults) && (wrong <==> transport.faults > old(transport.faults))
      ensures !wrong && lastReceiveEventCount < RECEIVE_BUDGET && old(probes[i].awaitingReply) ==>
                fate == Verdict(old(probes[i]), t, old(Arrivals(i)))
      ensures forall h :: h != old(probes[i].handle) ==> QueueOf(transport.incoming, h) == QueueOf(old(transport.incoming), h)
      ensures lastReceiveEventCount - old(lastReceiveEventCount) <= |transport.asked| - |old(transport.asked)|
    {
      hide Verdict;
      hide LogOk;
      hide Agrees;
      hide Reported;
      hide AfterReceive;
      hide AskedSince;
      ghost var p := probes[i];
      ReceiveKeeps(p);
      ts, wrong, fate := ReceiveTarget(i, t, transitions, before);
      if !p.awaitingReply {
        IdleReceives(p);
        fate := sendFate;
      }
    }

    // The next poll starts with the next target.
    method AdvanceCursor()
      requires Valid()
      modifies this`receiveCursor
      ensures Valid() && (probes != [] ==> receiveCursor == (old(receiveCursor) + 1) % |probes|)
    {
      if probes != [] {
        receiveCursor := (receiveCursor + 1) % |probes|;
      }
    }

    // receivePendingProbeReplies: every target once, starting at the cursor, which then moves on.
    method ReceivePendingProbeReplies(t: nat, transitions: seq<Transition>, ghost before: seq<Probe>, ghost sendFates: seq<Fate>)
      returns (ts: seq<Transition>, wrong: bool, ghost fates: seq<Fate>)
      requires Valid() && Reported(before, probes, transitions) && |sendFates| == |probes|
      requires forall j :: 0 <= j < |probes| ==> 0 <= probes[j].handle && probes[j].nextProbeTime <= t + INTERVAL
      requires forall j :: 0 <= j < |probes| && probes[j].awaitingReply ==> sendFates[j] == Quiet
      modifies this`probes, this`logs, this`lastReceiveEventCount, this`receiveCursor, transport`incoming, transport`dry
      modifies transport`asked, transport`elapsed, transport`faults
      ensures Shape() && Continues(old(probes), probes, old(logs), logs) && |probes| == |fates|
      ensures !wrong ==> Valid() && Reported(before, probes, ts)
      ensures !wrong ==> forall j :: 0 <= j < |probes| ==> 0 <= probes[j].handle
      ensures !wrong && probes != [] ==> receiveCursor == (old(receiveCursor) + 1) % |probes|
      ensures old(transport.asked) <= transport.asked
      ensures !wrong && lastReceiveEventCount < RECEIVE_BUDGET ==> forall j :: 0 <= j < |probes| && old(probes[j]).awaitingReply ==>
                AskedSince(transport.asked, |old(transport.asked)|, old(probes[j]).handle)
      ensures !wrong ==> forall j :: 0 <= j < |probes| ==> ReceivedAs(old(probes[j]), probes[j], sendFates[j], fates[j])
      ensures transport.faults >= old(transport.faults) && (wrong <==> transport.faults > old(transport.faults))
      ensures !wrong && lastReceiveEventCount < RECEIVE_BUDGET ==>
                forall j :: 0 <= j < |probes| ==> Judged(old(probes), j, t, old(Arrivals(j)), fates[j])
      ensures lastReceiveEventCount - old(lastReceiveEventCount) <= |transport.asked| - |old(transport.asked)|
    {
      hide JudgedSoFar;
      hide QueueOf;
      hide Received;
      hide Verdict;
      hide OwnSocket;
      hide Judged;
      hide Continues;
      hide LogOk;
      hide Agrees;
      hide Reported;
      hide AfterReceive;
      hide ReceivedAs;
      hide AskedSince;
      hide Visited;
      ts, wrong, fates := transitions, false, sendFates;
      QuietReceives(sendFates);
      ContinuesSelf(probes, logs);
      var count, offset := |probes|, 0;
      NothingVisited(receiveCursor, count);
      ReceivedNone(probes, sendFates, receiveCursor);
      JudgedNone(probes, transport.incoming, t, sendFates, receiveCursor);
      while offset < count && lastReceiveEventCount < RECEIVE_BUDGET
        invariant offset <= count == |probes| == |fates| && !wrong && Valid() && Reported(before, probes, ts)
        invariant Continues(old(probes), probes, old(logs), logs)
        invariant receiveCursor == old(receiveCursor) && old(transport.asked) <= transport.asked
        invariant forall j :: 0 <= j < count && Visited(j, receiveCursor, offset, count) && old(probes[j]).awaitingReply ==>
                    AskedSince(transport.asked, |old(transport.asked)|, old(probes[j]).handle)
        invariant Received(old(probes), probes, sendFates, fates, receiveCursor, offset)
        invariant transport.faults == old(transport.faults)
        invariant lastReceiveEventCount - old(lastReceiveEventCount) <= |transport.asked| - |old(transport.asked)|
        invariant JudgedSoFar(old(probes), old(transport.incoming), transport.incoming, t, fates, receiveCursor, offset,
                              RECEIVE_BUDGET <= lastReceiveEventCount)
      {
        var index := (receiveCursor + offset) % count;
        VisitNext(receiveCursor, offset, count);
        ReceivedSoFar(old(probes), probes, sendFates, fates, receiveCursor, offset);
        ghost var fate, asked, middle, logged, queues := Quiet, transport.asked, probes, logs, transport.incoming;
        ts, wrong, fate := ReceiveAt(index, t, ts, before, sendFates[index]);
        ContinuesOn(old(probes), middle, probes, old(logs), logged, logs);
        if wrong {
          return;
        }
        JudgedNext(old(probes), old(transport.incoming), queues, transport.incoming, t, fates, receiveCursor, offset, index,
                   RECEIVE_BUDGET <= lastReceiveEventCount, fate);
        ReceivedNext(old(probes), middle, probes, sendFates, fates, receiveCursor, offset, index, fate);
        AskedStays(asked, transport.asked, |old(transport.asked)|);
        fates, offset := fates[index := fate], offset + 1;
      }
      AllVisited(receiveCursor, count);
      ReceivedSoFar(old(probes), probes, sendFates, fates, receiveCursor, offset);
      if lastReceiveEventCount < RECEIVE_BUDGET {
        JudgedAll(old(probes), old(transport.incoming), transport.incoming, t, fates, receiveCursor);
      }
      AdvanceCursor();
    }

    // Every open target was never polled, or is armed since the last poll.
    ghost predicate Scheduled()
      reads this`probes, this`hasPolled, this`lastPollTime
    {
      Pollable(probes, if hasPolled then lastPollTime else 0)
    }

    // The two phases of a poll, without the cancellation.
    method SendAndReceive(t: nat, ghost t0: nat)
      returns (ts: seq<Transition>, ok: bool, ghost fates: seq<Fate>, ghost tokens: seq<seq<Byte>>)
      requires Valid() && Pollable(probes, t0) && t0 <= t
      modifies this`probes, this`logs, this`lastReceiveEventCount, this`receiveCursor
      modifies nonces`lastSequence, transport`sends, transport`sent, transport`incoming, transport`dry, transport`asked
      modifies transport`elapsed, transport`faults
      ensures Shape() && |probes| == |old(probes)| && Continues(old(probes), probes, old(logs), logs)
      ensures ok ==> Valid() && |fates| == |tokens| == |probes| && Reported(old(probes), probes, ts)
      ensures ok ==> forall i :: 0 <= i < |probes| ==>
                0 <= probes[i].handle && probes[i] == AfterPoll(old(probes[i]), t, fates[i], tokens[i]) && Armed(probes[i], t)
      ensures ok && lastReceiveEventCount < RECEIVE_BUDGET ==> forall i :: 0 <= i < |probes| && probes[i].awaitingReply ==>
                AskedSince(transport.asked, |old(transport.asked)|, probes[i].handle)
      ensures transport.faults >= old(transport.faults) && (ok ==> transport.faults == old(transport.faults))
      ensures !ok ==> AnyClosed(old(probes)) || nonces.lastSequence == U64_MAX || transport.faults > old(transport.faults)
      ensures ok ==> forall i :: 0 <= i < |probes| && OwnSocket(old(probes), i) ==>
                (fates[i] == SendFailed <==> IsDue(old(probes[i]), t) && old(transport.NextSend(probes[i].handle)) != IoResult(PACKET_BYTES, 0))
      ensures ok && lastReceiveEventCount < RECEIVE_BUDGET ==> forall i :: 0 <= i < |probes| && OwnSocket(old(probes), i) ==>
                DecidedBySocket(old(probes[i]), t, fates[i], tokens[i], old(Arrivals(i)))
      ensures lastReceiveEventCount - old(lastReceiveEventCount) <= |transport.asked| - |old(transport.asked)|
    {
      hide Judged;
      hide Verdict;
      hide OwnSocket;
      hide DecidedBySocket;
      hide AnyClosed;
      hide IsDue;
      hide LogOk;
      hide Agrees;
      hide Reported;
      hide AfterSend;
      hide AfterReceive;
      hide Armed;
      hide AskedSince;
      hide ReceivedAs;
      hide Continues;
      ghost var sendFates;
      ts, ok, sendFates, tokens := SendDueProbePackets(t);
      fates := sendFates;
      SameLength(old(probes), probes, old(logs), logs);
      if !ok {
        return;
      }
      ghost var middle, logged := probes, logs;
      SendsKeepSockets(old(probes), middle, t, sendFates, tokens);
      SendPhase(old(probes), middle, t0, t, sendFates, tokens);
      var wrong;
      ts, wrong, fates := ReceivePendingProbeReplies(t, ts, old(probes), sendFates);
      ContinuesOn(old(probes), middle, probes, old(logs), logged, logs);
      ok := !wrong;
      if ok {
        forall i | 0 <= i < |probes| && OwnSocket(old(probes), i)
          ensures fates[i] == SendFailed <==> sendFates[i] == SendFailed
          ensures Judged(middle, i, t, old(Arrivals(i)), fates[i]) ==>
                    DecidedBySocket(old(probes[i]), t, fates[i], tokens[i], old(Arrivals(i)))
        {
          OneVerdict(old(probes), middle, probes, i, t, sendFates[i], fates[i], tokens[i], old(Arrivals(i)));
        }
        PollPhase(old(probes), middle, probes, t0, t, sendFates, fates, tokens);
      }
    }

    // pollProbeTransitions: on success every target went through exactly one AfterPoll, and is
    // due again within one second; on failure everything is cancelled.
    method PollProbeTransitions(t: nat)
      returns (ts: seq<Transition>, ok: bool, ghost fates: seq<Fate>, ghost tokens: seq<seq<Byte>>)
      requires Valid() && Scheduled()
      modifies this`probes, this`logs, this`lastReceiveEventCount, this`receiveCursor, this`hasPolled, this`lastPollTime
      modifies nonces`lastSequence, transport`sends, transport`sent, transport`incoming, transport`dry, transport`asked
      modifies transport`elapsed, transport`faults
      ensures Valid() && |probes| == |old(probes)|
      ensures ok ==> !(old(hasPolled) && t < old(lastPollTime)) && hasPolled && lastPollTime == t
      ensures ok ==> |fates| == |tokens| == |probes| && Reported(old(probes), probes, ts)
      ensures ok ==> forall i :: 0 <= i < |probes| ==>
                0 <= probes[i].handle && probes[i] == AfterPoll(old(probes[i]), t, fates[i], tokens[i])
      ensures ok ==> forall i :: 0 <= i < |probes| ==> Armed(probes[i], t)
      ensures ok && lastReceiveEventCount < RECEIVE_BUDGET ==> forall i :: 0 <= i < |probes| && probes[i].awaitingReply ==>
                AskedSince(transport.asked, |old(transport.asked)|, probes[i].handle)
      ensures Scheduled()
      ensures !ok ==> ts == [] && Terminated()
      ensures Continues(old(probes), probes, old(logs), logs)
      ensures transport.faults >= old(transport.faults) && (ok ==> transport.faults == old(transport.faults))
      ensures !ok ==> (old(hasPolled) && t < old(lastPollTime)) || AnyClosed(old(probes)) || nonces.lastSequence == U64_MAX
                      || transport.faults > old(transport.faults)
      ensures ok ==> forall i :: 0 <= i < |probes| && OwnSocket(old(probes), i) ==>
                (fates[i] == SendFailed <==> IsDue(old(probes[i]), t) && old(transport.NextSend(probes[i].handle)) != IoResult(PACKET_BYTES, 0))
      ensures ok && lastReceiveEventCount < RECEIVE_BUDGET ==> forall i :: 0 <= i < |probes| && OwnSocket(old(probes), i) ==>
                DecidedBySocket(old(probes[i]), t, fates[i], tokens[i], old(Arrivals(i)))
      ensures ok ==> lastReceiveEventCount <= |transport.asked| - |old(transport.asked)|
    {
      hide LogOk;
      hide Agrees;
      hide Reported;
      hide AfterPoll;
      hide Armed;
      hide AskedSince;
      hide AnyClosed;
      hide IsDue;
      hide OwnSocket;
      hide DecidedBySocket;
      ts, ok, fates, tokens := [], false, [], [];
      if hasPolled && t < lastPollTime {
        CancelAllProbes();
        return;
      }
      ghost var t0 := if hasPolled then lastPollTime else 0;
      lastPollTime, hasPolled, lastReceiveEventCount := t, true, 0;
      ts, ok, fates, tokens := SendAndReceive(t, t0);
      if !ok {
        CancelAllProbes();
        ts := [];
      }
    }

    // A send fate is neutral in the receive phase.
    lemma QuietReceives(fates: seq<Fate>)
      requires |fates| == |probes| && forall j :: 0 <= j < |probes| && probes[j].awaitingReply ==> fates[j] == Quiet
      ensures forall j :: 0 <= j < |probes| ==> ReceivedAs(probes[j], probes[j], fates[j], fates[j])
    {
    }

    // The import loop of the constructor; false is the exception for counters no run produces.
    method ImportState(target: ProbeTarget, previous: seq<ProbeSnapshot>) returns (health: Health, ok: bool)
      ensures ok ==> health == ImportedHealth(target, previous) && Importable(health)
      ensures !ok ==> !Importable(ImportedHealth(target, previous))
    {
      health := INITIAL;
      for k := 0 to |previous|
        invariant health == INITIAL
        invariant ImportedHealth(target, previous[k..]) == ImportedHealth(target, previous)
      {
        assert previous[k..][1..] == previous[k + 1..];
        var earlier := previous[k];
        if SameProbeIdentity(target, earlier.target) {
          if earlier.health.successes > 2 || earlier.health.failures > 3 || (earlier.health.successes != 0 && earlier.health.failures != 0) {
            return health, false;
          }
          return earlier.health, true;
        }
      }
      ok := true;
    }

    // Every target is checked before any socket is opened.
    method CheckTargets(targets: seq<ProbeTarget>) returns (ok: bool)
      ensures ok <==> GoodTargets(targets)
    {
      if |targets| > MAX_TARGETS {
        return false;
      }
      var ids: set<string> := {};
      for i := 0 to |targets|
        invariant ids == set j | 0 <= j < i :: targets[j].id
        invariant forall j :: 0 <= j < i ==> GoodTarget(targets[j])
        invariant forall j, k :: 0 <= j < k < i ==> targets[j].id != targets[k].id
      {
        if targets[i].id in ids || !GoodTarget(targets[i]) {
          return false;
        }
        ids := ids + {targets[i].id};
      }
      ok := true;
    }

    // The body of the constructor. A failure closes what was opened and leaves no checker.
    method Populate(targets: seq<ProbeTarget>, previous: seq<ProbeSnapshot>) returns (ok: bool)
      requires Valid() && probes == [] && !hasPolled
      modifies this`probes, this`logs, this`imported, transport`handles, transport`refused
      ensures Valid() && Scheduled()
      ensures ok ==> GoodTargets(targets) && |probes| == |targets|
      ensures ok ==> forall i :: 0 <= i < |targets| ==>
                probes[i].snapshot == ProbeSnapshot(targets[i], ImportedHealth(targets[i], previous))
                && Importable(probes[i].snapshot.health) && Untried(probes[i]) && 0 <= probes[i].handle
      ensures ok ==> forall i :: 0 <= i < |targets| ==> logs[i] == [] && imported[i] == ImportedHealth(targets[i], previous)
      ensures !ok ==> Terminated()
      ensures !ok ==> !GoodTargets(targets) || transport.refused > old(transport.refused)
                      || exists i :: 0 <= i < |targets| && !Importable(ImportedHealth(targets[i], previous))
      ensures !GoodTargets(targets) ==> !ok
    {
      var good := CheckTargets(targets);
      if !good {
        return false;
      }
      for i := 0 to |targets|
        invariant Valid() && |probes| == i && receiveCursor == 0 && !hasPolled
        invariant old(transport.refused) <= transport.refused
        invariant forall j :: 0 <= j < i ==> logs[j] == [] && imported[j] == ImportedHealth(targets[j], previous)
        invariant forall j :: 0 <= j < i ==>
                    probes[j].snapshot == ProbeSnapshot(targets[j], ImportedHealth(targets[j], previous))
                    && Importable(probes[j].snapshot.health) && Untried(probes[j]) && 0 <= probes[j].handle
      {
        var added := AddTarget(targets[i], previous);
        if !added {
          CancelAllProbes();
          return false;
        }
      }
      ok := true;
    }

    // One target of the constructor: import, then open. The probe owns its handle from the start.
    method AddTarget(target: ProbeTarget, previous: seq<ProbeSnapshot>) returns (ok: bool)
      requires Valid() && |probes| < MAX_TARGETS && receiveCursor == 0
      requires forall j :: 0 <= j < |probes| ==> probes[j].snapshot.target.id != target.id
      modifies this`probes, this`logs, this`imported, transport`handles, transport`refused
      ensures Shape() && old(transport.refused) <= transport.refused
      ensures !ok ==> transport.refused > old(transport.refused) || !Importable(ImportedHealth(target, previous))
      ensures ok ==> Valid() && |probes| == |old(probes)| + 1 && probes[..|old(probes)|] == old(probes)
      ensures ok ==> logs == old(logs) + [[]] && imported == old(imported) + [ImportedHealth(target, previous)]
      ensures ok ==> var p := probes[|old(probes)|];
                p.snapshot == ProbeSnapshot(target, ImportedHealth(target, previous)) && Importable(p.snapshot.health)
                && Untried(p) && 0 <= p.handle
    {
      hide ImportedHealth;
      var health, fine := ImportState(target, previous);
      if !fine {
        return false;
      }
      probes := probes + [Probe(ProbeSnapshot(target, health), -1, false, NO_TOKEN, 0, 0)];
      logs, imported := logs + [[]], imported + [health];
      var handle := transport.OpenProbeSocket(target);
      probes := probes[|probes| - 1 := probes[|probes| - 1].(handle := handle)];
      ok := 0 <= handle;
    }

    // nextProbeWakeup: the earliest wakeup; None stands for the end of time of an empty set.
    method NextProbeWakeup() returns (some: bool, t: nat)
      ensures some <==> probes != []
      ensures some ==> (exists i :: 0 <= i < |probes| && t == Wakeup(probes[i]))
      ensures some ==> forall i :: 0 <= i < |probes| ==> t <= Wakeup(probes[i])
    {
      some, t := false, 0;
      for i := 0 to |probes|
        invariant some <==> 0 < i
        invariant some ==> exists j :: 0 <= j < i && t == Wakeup(probes[j])
        invariant some ==> forall j :: 0 <= j < i ==> t <= Wakeup(probes[j])
      {
        var wakeup := Wakeup(probes[i]);
        if !some || wakeup < t {
          some, t := true, wakeup;
        }
      }
    }

    // The wakeup reported after a successful poll at t lies in (t, t + 1 s].
    lemma WakeupInTime(t: nat, wakeup: nat)
      requires forall i :: 0 <= i < |probes| ==> Armed(probes[i], t)
      requires exists i :: 0 <= i < |probes| && wakeup == Wakeup(probes[i])
      ensures t < wakeup <= t + INTERVAL
    {
    }

    // copyHealthyProbeTargets: the Healthy targets in configuration order.
    method CopyHealthyProbeTargets() returns (result: seq<ProbeTarget>)
      ensures result == HealthyTargets(probes)
    {
      result := [];
      for i := 0 to |probes|
        invariant result == HealthyTargets(probes[..i])
      {
        assert probes[..i + 1][..i] == probes[..i];
        if probes[i].snapshot.health.status == Healthy {
          result := result + [probes[i].snapshot.target];
        }
      }
      assert probes[..|probes|] == probes;
    }

    // copyProbeSnapshots, the state a reload imports.
    method CopyProbeSnapshots() returns (result: seq<ProbeSnapshot>)
      ensures |result| == |probes| && forall i :: 0 <= i < |probes| ==> result[i] == probes[i].snapshot
    {
      result := [];
      for i := 0 to |probes|
        invariant |result| == i && forall j :: 0 <= j < i ==> result[j] == probes[j].snapshot
      {
        result := result + [probes[i].snapshot];
      }
    }
  }

  function HealthyTargets(probes: seq<Probe>): seq<ProbeTarget> {
    if probes == [] then []
    else
      var before, p := HealthyTargets(probes[..|probes| - 1]), probes[|probes| - 1];
      if p.snapshot.health.status == Healthy then before + [p.snapshot.target] else before
  }

  // No other target has the socket of target i, as is always so for descriptors that are open.
  ghost predicate OwnSocket(probes: seq<Probe>, i: nat)
    requires i < |probes|
  {
    forall j :: 0 <= j < |probes| && j != i ==> probes[j].handle != probes[i].handle
  }

  // A target in flight on a socket of its own got the fate that its socket gives it.
  ghost predicate Judged(before: seq<Probe>, j: nat, t: nat, queue: seq<Arrival>, fate: Fate)
    requires j < |before|
  {
    before[j].awaitingReply && OwnSocket(before, j) ==> fate == Verdict(before[j], t, queue)
  }

  // The judgements after `offset` targets, unless the budget ran out: the sockets of the targets to
  // come are as they were.
  ghost predicate JudgedSoFar(before: seq<Probe>, start: map<int, seq<Arrival>>, now: map<int, seq<Arrival>>, t: nat, fates: seq<Fate>,
                              cursor: nat, offset: nat, spent: bool) {
    |fates| == |before| && forall j :: 0 <= j < |before| && cursor < |before| ==>
      if Visited(j, cursor, offset, |before|) then spent || Judged(before, j, t, QueueOf(start, before[j].handle), fates[j])
      else OwnSocket(before, j) ==> QueueOf(now, before[j].handle) == QueueOf(start, before[j].handle)
  }

  lemma JudgedNone(before: seq<Probe>, start: map<int, seq<Arrival>>, t: nat, fates: seq<Fate>, cursor: nat)
    requires |fates| == |before|
    ensures forall spent :: JudgedSoFar(before, start, start, t, fates, cursor, 0, spent)
  {
  }

  lemma JudgedNext(before: seq<Probe>, start: map<int, seq<Arrival>>, middle: map<int, seq<Arrival>>, now: map<int, seq<Arrival>>,
                   t: nat, fates: seq<Fate>, cursor: nat, offset: nat, i: nat, spent: bool, fate: Fate)
    requires JudgedSoFar(before, start, middle, t, fates, cursor, offset, false) && IsNext(i, cursor, offset, |before|)
    requires !spent && before[i].awaitingReply ==> fate == Verdict(before[i], t, QueueOf(middle, before[i].handle))
    requires forall h :: h != before[i].handle ==> QueueOf(now, h) == QueueOf(middle, h)
    ensures JudgedSoFar(before, start, now, t, fates[i := fate], cursor, offset + 1, spent)
  {
    hide Verdict;
    hide Visited;
    hide OwnSocket;
    hide Judged;
    hide QueueOf;
    OwnSocketsApart(before, i);
    JudgeOne(before, i, t, fate);
  }

  lemma JudgedAll(before: seq<Probe>, start: map<int, seq<Arrival>>, now: map<int, seq<Arrival>>, t: nat, fates: seq<Fate>, cursor: nat)
    requires JudgedSoFar(before, start, now, t, fates, cursor, |before|, false) && (before == [] || cursor < |before|)
    ensures forall j :: 0 <= j < |before| ==> Judged(before, j, t, QueueOf(start, before[j].handle), fates[j])
  {
    hide Judged;
    AllVisited(cursor, |before|);
  }

  lemma JudgeOne(before: seq<Probe>, j: nat, t: nat, fate: Fate)
    requires j < |before|
    ensures forall queue ::
              Judged(before, j, t, queue, fate) <==> before[j].awaitingReply && OwnSocket(before, j) ==> fate == Verdict(before[j], t, queue)
  {
  }

  lemma OwnSocketsApart(probes: seq<Probe>, i: nat)
    requires i < |probes|
    ensures forall j :: 0 <= j < |probes| && j != i && OwnSocket(probes, j) ==> probes[j].handle != probes[i].handle
  {
  }

  // In a poll at t a round in flight, also one that this poll started, got the fate its socket
  // gives it.
  ghost predicate DecidedBySocket(before: Probe, t: nat, fate: Fate, token: seq<Byte>, queue: seq<Arrival>) {
    var p := AfterSend(before, t, Quiet, token);
    p.awaitingReply && fate != SendFailed ==> fate == Verdict(p, t, queue)
  }

  lemma SendsKeepSockets(before: seq<Probe>, middle: seq<Probe>, t: nat, fates: seq<Fate>, tokens: seq<seq<Byte>>)
    requires |before| == |middle| == |fates| == |tokens|
    requires forall i :: 0 <= i < |middle| ==> middle[i] == AfterSend(before[i], t, fates[i], tokens[i])
    ensures forall i :: 0 <= i < |middle| ==> middle[i].handle == before[i].handle && (OwnSocket(before, i) <==> OwnSocket(middle, i))
  {
    assert forall i :: 0 <= i < |middle| ==> middle[i].handle == before[i].handle;
  }

  lemma OneVerdict(before: seq<Probe>, middle: seq<Probe>, after: seq<Probe>, i: nat, t: nat, sendFate: Fate, fate: Fate,
                   token: seq<Byte>, queue: seq<Arrival>)
    requires i < |before| == |middle| == |after| && OwnSocket(middle, i)
    requires middle[i] == AfterSend(before[i], t, sendFate, token) && (sendFate == Quiet || sendFate == SendFailed)
    requires middle[i].awaitingReply ==> sendFate == Quiet
    requires ReceivedAs(middle[i], after[i], sendFate, fate)
    requires sendFate == SendFailed ==> IsDue(before[i], t)
    ensures fate == SendFailed <==> sendFate == SendFailed
    ensures Judged(middle, i, t, queue, fate) ==> DecidedBySocket(before[i], t, fate, token, queue)
  {
    hide OwnSocket;
    hide Verdict;
  }

  ghost predicate AnyClosed(probes: seq<Probe>) {
    exists i :: 0 <= i < |probes| && probes[i].handle < 0
  }

  // The send phase turned p into q.
  ghost predicate SentAs(p: Probe, q: Probe, t: nat, fate: Fate, token: seq<Byte>) {
    0 <= q.handle && q == AfterSend(p, t, fate, token) && (fate == SendFailed || fate == Quiet) && (q.awaitingReply ==> fate == Quiet)
  }

  // The send phase after n targets.
  ghost predicate SentSoFar(before: seq<Probe>, now: seq<Probe>, t: nat, fates: seq<Fate>, tokens: seq<seq<Byte>>, n: nat) {
    && n <= |before| == |now| == |fates| == |tokens|
    && (forall j :: 0 <= j < n ==> SentAs(before[j], now[j], t, fates[j], tokens[j]))
    && forall j :: n <= j < |now| ==> now[j] == before[j]
  }

  lemma SentNone(probes: seq<Probe>, t: nat, fates: seq<Fate>, tokens: seq<seq<Byte>>)
    requires |probes| == |fates| == |tokens|
    ensures SentSoFar(probes, probes, t, fates, tokens, 0)
  {
  }

  lemma SentParts(before: seq<Probe>, now: seq<Probe>, t: nat, fates: seq<Fate>, tokens: seq<seq<Byte>>, n: nat)
    requires SentSoFar(before, now, t, fates, tokens, n)
    ensures n < |now| ==> now[n] == before[n]
    ensures forall j :: 0 <= j < n ==> 0 <= now[j].handle && now[j] == AfterSend(before[j], t, fates[j], tokens[j])
    ensures forall j :: 0 <= j < n ==> fates[j] == Quiet || fates[j] == SendFailed
    ensures forall j :: 0 <= j < n && now[j].awaitingReply ==> fates[j] == Quiet
  {
    hide AfterSend;
  }

  lemma SentNext(before: seq<Probe>, now: seq<Probe>, next: seq<Probe>, t: nat, fates: seq<Fate>, tokens: seq<seq<Byte>>,
                 n: nat, fate: Fate, token: seq<Byte>)
    requires SentSoFar(before, now, t, fates, tokens, n) && n < |now| == |next|
    requires next == now[n := AfterSend(now[n], t, fate, token)] && 0 <= next[n].handle
    requires (fate == Quiet || fate == SendFailed) && (next[n].awaitingReply ==> fate == Quiet)
    ensures SentSoFar(before, next, t, fates[n := fate], tokens[n := token], n + 1)
  {
    hide AfterSend;
    assert now[n] == before[n];
  }

  // The receive phase turned p into q; a target that was not waiting keeps its fate.
  ghost predicate ReceivedAs(p: Probe, q: Probe, sendFate: Fate, fate: Fate) {
    q == AfterReceive(p, fate) && (fate == sendFate || (fate != SendFailed && p.awaitingReply))
  }

  ghost predicate Pollable(probes: seq<Probe>, t0: nat) {
    forall i :: 0 <= i < |probes| && 0 <= probes[i].handle ==> Untried(probes[i]) || Armed(probes[i], t0)
  }

  lemma SendPhase(before: seq<Probe>, middle: seq<Probe>, t0: nat, t: nat, fates: seq<Fate>, tokens: seq<seq<Byte>>)
    requires |before| == |middle| == |fates| == |tokens| && Pollable(before, t0) && t0 <= t
    requires forall i :: 0 <= i < |middle| ==> middle[i] == AfterSend(before[i], t, fates[i], tokens[i]) && 0 <= middle[i].handle
    ensures forall i :: 0 <= i < |middle| ==> middle[i].nextProbeTime <= t + INTERVAL
  {
    forall i | 0 <= i < |middle|
      ensures middle[i].nextProbeTime <= t + INTERVAL
    {
      assert middle[i].handle == before[i].handle;
    }
  }

  lemma PollPhase(before: seq<Probe>, middle: seq<Probe>, after: seq<Probe>, t0: nat, t: nat, sendFates: seq<Fate>,
                  fates: seq<Fate>, tokens: seq<seq<Byte>>)
    requires |before| == |middle| == |after| == |sendFates| == |fates| == |tokens| && Pollable(before, t0) && t0 <= t
    requires forall i :: 0 <= i < |middle| ==> middle[i] == AfterSend(before[i], t, sendFates[i], tokens[i]) && 0 <= middle[i].handle
    requires forall i :: 0 <= i < |middle| ==> sendFates[i] == Quiet || sendFates[i] == SendFailed
    requires forall i :: 0 <= i < |after| ==> ReceivedAs(middle[i], after[i], sendFates[i], fates[i])
    ensures forall i :: 0 <= i < |after| ==> after[i] == AfterPoll(before[i], t, fates[i], tokens[i]) && Armed(after[i], t)
    ensures forall i :: 0 <= i < |after| && after[i].awaitingReply ==> middle[i].awaitingReply && after[i].handle == middle[i].handle
  {
    forall i | 0 <= i < |after|
      ensures after[i] == AfterPoll(before[i], t, fates[i], tokens[i]) && Armed(after[i], t)
    {
      assert middle[i].handle == before[i].handle;
      TwoPhases(before[i], middle[i], after[i], t, sendFates[i], fates[i], tokens[i]);
      PollArms(before[i], t0, t, fates[i], tokens[i]);
    }
  }

  // A send phase and a receive phase make one poll.
  lemma TwoPhases(p: Probe, q: Probe, r: Probe, t: nat, sendFate: Fate, fate: Fate, token: seq<Byte>)
    requires q == AfterSend(p, t, sendFate, token) && (sendFate == Quiet || sendFate == SendFailed)
    requires ReceivedAs(q, r, sendFate, fate)
    ensures r == AfterPoll(p, t, fate, token)
  {
  }

  // Index j is one of the first `offset` visited, counting from the cursor around the pool.
  ghost predicate Visited(j: nat, cursor: nat, offset: nat, count: nat)
    requires cursor < count && j < count
  {
    (if cursor <= j then j - cursor else j + count - cursor) < offset
  }

  lemma NothingVisited(cursor: nat, count: nat)
    ensures forall j :: 0 <= j < count && cursor < count ==> !Visited(j, cursor, 0, count)
  {
  }

  lemma AllVisited(cursor: nat, count: nat)
    ensures forall j :: 0 <= j < count && cursor < count ==> Visited(j, cursor, count, count)
  {
  }

  // Index i is the next one to visit.
  ghost predicate IsNext(i: nat, cursor: nat, offset: nat, count: nat) {
    cursor < count && i < count && !Visited(i, cursor, offset, count)
    && forall j :: 0 <= j < count ==> (Visited(j, cursor, offset + 1, count) <==> j == i || Visited(j, cursor, offset, count))
  }

  lemma VisitNext(cursor: nat, offset: nat, count: nat)
    requires cursor < count && offset < count
    ensures (cursor + offset) % count < count && IsNext((cursor + offset) % count, cursor, offset, count)
  {
    var index := if cursor + offset < count then cursor + offset else cursor + offset - count;
    WrapIndex(cursor + offset, count);
    assert index == (cursor + offset) % count;
  }

  lemma WrapIndex(i: nat, count: nat)
    requires i < 2 * count
    ensures i % count == if i < count then i else i - count
  {
  }

  // The receive phase after `offset` targets.
  ghost predicate Received(before: seq<Probe>, now: seq<Probe>, sendFates: seq<Fate>, fates: seq<Fate>, cursor: nat, offset: nat) {
    |before| == |now| == |sendFates| == |fates| && forall j :: 0 <= j < |now| ==>
      ReceivedAs(before[j], now[j], sendFates[j], fates[j])
      && (cursor < |now| && !Visited(j, cursor, offset, |now|) ==> now[j] == before[j] && fates[j] == sendFates[j])
  }

  lemma ReceivedNone(probes: seq<Probe>, fates: seq<Fate>, cursor: nat)
    requires |fates| == |probes| && forall j :: 0 <= j < |probes| ==> ReceivedAs(probes[j], probes[j], fates[j], fates[j])
    ensures Received(probes, probes, fates, fates, cursor, 0)
  {
  }

  lemma ReceivedSoFar(before: seq<Probe>, now: seq<Probe>, sendFates: seq<Fate>, fates: seq<Fate>, cursor: nat, offset: nat)
    requires Received(before, now, sendFates, fates, cursor, offset)
    ensures forall j :: 0 <= j < |now| ==> ReceivedAs(before[j], now[j], sendFates[j], fates[j])
    ensures forall j :: 0 <= j < |now| && cursor < |now| && !Visited(j, cursor, offset, |now|) ==> now[j] == before[j] && fates[j] == sendFates[j]
    ensures forall j :: 0 <= j < |now| ==> now[j].handle == before[j].handle && now[j].nextProbeTime == before[j].nextProbeTime
  {
  }

  lemma ReceivedNext(before: seq<Probe>, now: seq<Probe>, next: seq<Probe>, sendFates: seq<Fate>, fates: seq<Fate>,
                     cursor: nat, offset: nat, i: nat, fate: Fate)
    requires Received(before, now, sendFates, fates, cursor, offset) && IsNext(i, cursor, offset, |now|)
    requires |next| == |now| && next == now[i := next[i]] && ReceivedAs(before[i], next[i], sendFates[i], fate)
    ensures Received(before, next, sendFates, fates[i := fate], cursor, offset + 1)
  {
    hide ReceivedAs;
    hide Visited;
  }

  lemma ReceiveKeeps(p: Probe)
    ensures forall f :: AfterReceive(p, f).handle == p.handle && AfterReceive(p, f).nextProbeTime == p.nextProbeTime
  {
  }

  lemma IdleReceives(p: Probe)
    requires !p.awaitingReply
    ensures forall f :: AfterReceive(p, f) == p
  {
  }
}
