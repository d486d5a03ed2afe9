/**
 One probe of the UDP probe checker as a value, what one poll does to it, and the real-time
 bounds that follow for any sequence of polls. Times are nanoseconds of the steady clock.
 */
module ProbeRound {
  import opened Common
  import opened ProbeHealth
  import opened ProbeNonce

  const INTERVAL: nat := 1_000_000_000
  const TIMEOUT: nat := 500_000_000
  const NO_TOKEN: seq<Byte> := [0, 0, 0, 0, 0, 0, 0, 0, 0, 0, 0, 0, 0, 0, 0, 0, 0, 0, 0, 0, 0, 0, 0, 0]

  datatype ProbeTarget = ProbeTarget(
    id: string, interfaceName: string, ifindex: nat, sourceMac: seq<Byte>, destinationMac: seq<Byte>,
    probeAddress: nat, probePort: nat)

  datatype ProbeSnapshot = ProbeSnapshot(target: ProbeTarget, health: Health)

  datatype Probe = Probe(
    snapshot: ProbeSnapshot, handle: int, awaitingReply: bool, token: seq<Byte>,
    nextProbeTime: nat, probeDeadline: nat)

  // The interface name takes no part in the identity; the interface index does.
  predicate SameProbeIdentity(a: ProbeTarget, b: ProbeTarget) {
    a.id == b.id && a.ifindex == b.ifindex && a.sourceMac == b.sourceMac && a.destinationMac == b.destinationMac
    && a.probeAddress == b.probeAddress && a.probePort == b.probePort
  }

  // A round ends: the token is cancelled and the result counted.
  function Completed(p: Probe, success: bool): Probe {
    p.(awaitingReply := false, token := NO_TOKEN, snapshot := p.snapshot.(health := Step(p.snapshot.health, success)))
  }

  // A round starts at poll time t.
  function Started(p: Probe, t: nat, token: seq<Byte>): Probe {
    p.(token := token, nextProbeTime := t + INTERVAL, probeDeadline := t + TIMEOUT)
  }

  predicate TimedOut(p: Probe, t: nat) {
    p.awaitingReply && p.probeDeadline <= t
  }

  // A poll at time t starts a new round.
  predicate IsDue(p: Probe, t: nat) {
    (!p.awaitingReply || p.probeDeadline <= t) && p.nextProbeTime <= t
  }

  // What the environment made of a target during one poll.
  datatype Fate = Quiet | SendFailed | Missed | Echoed

  // The send phase: the deadline first, then a new round if one is due.
  function AfterSend(p: Probe, t: nat, fate: Fate, token: seq<Byte>): Probe {
    var q := if TimedOut(p, t) then Completed(p, false) else p;
    if q.awaitingReply || t < q.nextProbeTime then q
    else if fate == SendFailed then Completed(Started(q, t, token), false)
    else Started(q, t, token).(awaitingReply := true)
  }

  // The receive phase, which only concerns a target with a round in flight.
  function AfterReceive(p: Probe, fate: Fate): Probe {
    if !p.awaitingReply then p
    else if fate == Missed then Completed(p, false)
    else if fate == Echoed then Completed(p, true)
    else p
  }

  function AfterPoll(p: Probe, t: nat, fate: Fate, token: seq<Byte>): Probe {
    AfterReceive(AfterSend(p, t, fate, token), fate)
  }

  // When the target has to be looked at next.
  function Wakeup(p: Probe): nat {
    if p.awaitingReply then p.probeDeadline else p.nextProbeTime
  }

  // What every poll at time t leaves behind: no round overdue, none due, deadline half a second
  // after its send.
  ghost predicate Armed(p: Probe, t: nat) {
    t < Wakeup(p) && p.nextProbeTime <= t + INTERVAL
    && (p.awaitingReply ==> p.nextProbeTime == p.probeDeadline + (INTERVAL - TIMEOUT))
  }

  // A target that was never polled.
  ghost predicate Untried(p: Probe) {
    !p.awaitingReply && p.nextProbeTime == 0
  }

  // The wakeup after a poll at t lies in (t, t + 1 s], and a send at t comes at least one second
  // after the previous send, which fixed nextProbeTime.
  lemma PollArms(p: Probe, t0: nat, t: nat, fate: Fate, token: seq<Byte>)
    requires Untried(p) || (Armed(p, t0) && t0 <= t)
    ensures Armed(AfterPoll(p, t, fate, token), t)
    ensures t < Wakeup(AfterPoll(p, t, fate, token)) <= t + INTERVAL
    ensures AfterPoll(p, t, fate, token).nextProbeTime != p.nextProbeTime ==>
              p.nextProbeTime <= t && AfterPoll(p, t, fate, token).nextProbeTime == t + INTERVAL
  {
  }

  // The time by which a target that gets no echo is Unhealthy, when polls are at most g apart.
  function Bound(p: Probe, g: nat): nat {
    var missing := if p.snapshot.health.failures < 2 then 3 - p.snapshot.health.failures else 1;
    if !p.awaitingReply then p.nextProbeTime + g + (missing - 1) * (INTERVAL + g) + TIMEOUT + g
    else if missing == 1 then p.probeDeadline + g
    else p.nextProbeTime + g + (missing - 2) * (INTERVAL + g) + TIMEOUT + g
  }

  // While the target is not Unhealthy, the bound is more than one poll gap away.
  lemma BoundIsAhead(p: Probe, t: nat, g: nat)
    requires Armed(p, t)
    ensures t + g < Bound(p, g) <= t + 3 * INTERVAL + TIMEOUT + 4 * g
  {
  }

  // A poll without an echo makes the target Unhealthy or keeps the bound.
  lemma BoundHolds(p: Probe, t0: nat, t: nat, g: nat, fate: Fate, token: seq<Byte>)
    requires Armed(p, t0) && t0 <= t <= t0 + g && fate != Echoed
    ensures var q := AfterPoll(p, t, fate, token);
            q.snapshot.health.status == Unhealthy || Bound(q, g) <= Bound(p, g)
    ensures p.snapshot.health.status == Unhealthy ==>
              AfterPoll(p, t, fate, token).snapshot.health.status == Unhealthy
  {
  }

  // A run of polls at the times ts, the first of which left ps[0].
  ghost predicate Run(ps: seq<Probe>, ts: seq<nat>, fates: seq<Fate>, tokens: seq<seq<Byte>>) {
    && |ps| == |ts| == |fates| == |tokens| && ps != []
    && forall j :: 0 < j < |ps| ==> ts[j - 1] <= ts[j] && ps[j] == AfterPoll(ps[j - 1], ts[j], fates[j], tokens[j])
  }

  // If polls are at most g apart and no echo is accepted after poll time ts[0], the target is
  // Unhealthy by ts[0] + 3.5 s + 4 g.
  lemma {:induction false} SilentTargetIsUnhealthy(ps: seq<Probe>, ts: seq<nat>, fates: seq<Fate>,
                                                   tokens: seq<seq<Byte>>, g: nat)
    requires Run(ps, ts, fates, tokens) && Armed(ps[0], ts[0])
    requires forall j :: 0 < j < |ps| ==> fates[j] != Echoed && ts[j] <= ts[j - 1] + g
    ensures var last := |ps| - 1;
            ts[0] + 3_500_000_000 + 4 * g <= ts[last] + g ==> ps[last].snapshot.health.status == Unhealthy
  {
    BoundIsAhead(ps[0], ts[0], g);
    BoundNeverGrows(ps, ts, fates, tokens, g);
    BoundIsAhead(ps[|ps| - 1], ts[|ts| - 1], g);
  }

  lemma {:induction false} BoundNeverGrows(ps: seq<Probe>, ts: seq<nat>, fates: seq<Fate>, tokens: seq<seq<Byte>>, g: nat)
    requires Run(ps, ts, fates, tokens) && Armed(ps[0], ts[0])
    requires forall j :: 0 < j < |ps| ==> fates[j] != Echoed && ts[j] <= ts[j - 1] + g
    ensures var last := |ps| - 1;
            Armed(ps[last], ts[last])
            && (ps[last].snapshot.health.status == Unhealthy || Bound(ps[last], g) <= Bound(ps[0], g))
    decreases |ps|
  {
    var last := |ps| - 1;
    if last > 0 {
      BoundNeverGrows(ps[..last], ts[..last], fates[..last], tokens[..last], g);
      PollArms(ps[last - 1], ts[last - 1], ts[last], fates[last], tokens[last]);
      BoundHolds(ps[last - 1], ts[last - 1], ts[last], g, fates[last], tokens[last]);
    }
  }

  // The time by which a target is Healthy when every round is answered before its deadline and
  // polls are at most g apart.
  function HealthyBy(p: Probe, g: nat): nat {
    if p.awaitingReply && p.snapshot.health.successes != 0 then p.probeDeadline
    else if p.awaitingReply || p.snapshot.health.successes != 0 then p.nextProbeTime + g + TIMEOUT
    else p.nextProbeTime + g + INTERVAL + g + TIMEOUT
  }

  // A poll that ends no round without an echo.
  ghost predicate NoMiss(p: Probe, t: nat, fate: Fate) {
    !TimedOut(p, t) && fate != Missed && fate != SendFailed
  }

  // Such a poll makes the target Healthy or keeps the bound.
  lemma AnswersKeepBound(p: Probe, t0: nat, t: nat, g: nat, fate: Fate, token: seq<Byte>)
    requires Armed(p, t0) && t0 <= t <= t0 + g && NoMiss(p, t, fate)
    ensures var q := AfterPoll(p, t, fate, token);
            q.snapshot.health.status == Healthy || HealthyBy(q, g) <= HealthyBy(p, g)
    ensures p.snapshot.health.status == Healthy ==>
              AfterPoll(p, t, fate, token).snapshot.health.status == Healthy
  {
  }

  // If polls are at most g apart and every round after poll time ts[0] is sent and answered before
  // its deadline, the target is Healthy by ts[0] + 2.5 s + 2 g.
  lemma {:induction false} AnsweredTargetIsHealthy(ps: seq<Probe>, ts: seq<nat>, fates: seq<Fate>,
                                                   tokens: seq<seq<Byte>>, g: nat)
    requires Run(ps, ts, fates, tokens) && Armed(ps[0], ts[0])
    requires forall j :: 0 < j < |ps| ==> NoMiss(ps[j - 1], ts[j], fates[j]) && ts[j] <= ts[j - 1] + g
    ensures var last := |ps| - 1;
            ts[0] + 2_500_000_000 + 2 * g <= ts[last] ==> ps[last].snapshot.health.status == Healthy
  {
    HealthyByNeverGrows(ps, ts, fates, tokens, g);
  }

  lemma {:induction false} HealthyByNeverGrows(ps: seq<Probe>, ts: seq<nat>, fates: seq<Fate>, tokens: seq<seq<Byte>>, g: nat)
    requires Run(ps, ts, fates, tokens) && Armed(ps[0], ts[0])
    requires forall j :: 0 < j < |ps| ==> NoMiss(ps[j - 1], ts[j], fates[j]) && ts[j] <= ts[j - 1] + g
    ensures var last := |ps| - 1;
            Armed(ps[last], ts[last])
            && (ps[last].snapshot.health.status == Healthy || HealthyBy(ps[last], g) <= HealthyBy(ps[0], g))
    decreases |ps|
  {
    hide AfterPoll;
    hide HealthyBy;
    hide NoMiss;
    hide Armed;
    var last := |ps| - 1;
    if last > 0 {
      HealthyByNeverGrows(ps[..last], ts[..last], fates[..last], tokens[..last], g);
      PollArms(ps[last - 1], ts[last - 1], ts[last], fates[last], tokens[last]);
      AnswersKeepBound(ps[last - 1], ts[last - 1], ts[last], g, fates[last], tokens[last]);
    }
  }
}
