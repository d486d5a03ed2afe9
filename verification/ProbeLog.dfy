/**
 The history of one probe target: sends and results in order. The checker keeps such a log as
 ghost state; its invariant is what the protocol promises about rounds and echoes.
 */
module ProbeLog {
  import opened Common
  import opened ProbeHealth
  import opened ProbeNonce
  import opened ProbeRound

  datatype Cause = DeadlinePassed | IoFailure(error: nat)
  datatype Event = Sent(time: nat, number: nat)
                 | Echo(time: nat, datagram: seq<Byte>)
                 | Miss(time: nat, cause: Cause)

  // Event i: rounds alternate send and result, with increasing sequence numbers in (base, last]
  // and sends at least one second apart. An echo is the exact packet of its round, before its
  // deadline; a miss by timeout is not earlier than the deadline.
  ghost predicate EventOk(log: seq<Event>, i: nat, epoch: nat, base: nat, last: nat)
    requires i < |log|
  {
    && (log[i].Sent? <==> i % 2 == 0)
    && (log[i].Sent? ==> base < log[i].number <= last)
    && (2 <= i && log[i].Sent? ==> log[i - 2].Sent? && log[i - 2].number < log[i].number && log[i - 2].time + INTERVAL <= log[i].time)
    && (1 <= i && !log[i].Sent? ==> log[i - 1].Sent? && log[i - 1].time <= log[i].time)
    && (1 <= i && log[i].Echo? ==> log[i].datagram == Encode(epoch, log[i - 1].number) && log[i].time < log[i - 1].time + TIMEOUT)
    && (1 <= i && log[i].Miss? && log[i].cause == DeadlinePassed ==> log[i - 1].time + TIMEOUT <= log[i].time)
  }

  ghost predicate LogOk(log: seq<Event>, epoch: nat, base: nat, last: nat) {
    forall i :: 0 <= i < |log| ==> EventOk(log, i, epoch, base, last)
  }

  // The results in a log, in order.
  ghost function Results(log: seq<Event>): seq<bool> {
    if log == [] then []
    else
      var before := Results(log[..|log| - 1]);
      if log[|log| - 1].Sent? then before else before + [log[|log| - 1].Echo?]
  }

  // A probe agrees with its log: health, round in flight, deadlines.
  ghost predicate Agrees(p: Probe, log: seq<Event>, imported: Health, epoch: nat) {
    && p.snapshot.health == Replay(imported, Results(log))
    && (log != [] ==> (log[|log| - 1].Sent? <==> |log| % 2 == 1))
    && (|log| >= 2 && |log| % 2 == 0 ==> log[|log| - 2].Sent?)
    && (p.awaitingReply <==> |log| % 2 == 1)
    && (log == [] ==> p.nextProbeTime == 0)
    && (p.awaitingReply ==>
          var sent := log[|log| - 1];
          p.token == Encode(epoch, sent.number) && p.nextProbeTime == sent.time + INTERVAL
          && p.probeDeadline == sent.time + TIMEOUT)
    && (!p.awaitingReply && log != [] ==> p.nextProbeTime == log[|log| - 2].time + INTERVAL)
  }

  lemma ResultsExtend(log: seq<Event>, e: Event)
    ensures Results(log + [e]) == if e.Sent? then Results(log) else Results(log) + [e.Echo?]
  {
    assert (log + [e])[..|log + [e]| - 1] == log;
  }

  lemma ReplayExtend(h: Health, rs: seq<bool>, r: bool)
    ensures Replay(h, rs + [r]) == Step(Replay(h, rs), r)
  {
    assert (rs + [r])[..|rs + [r]| - 1] == rs;
  }

  // A larger sequence number is the only effect of other targets' sends.
  lemma LogOkLater(log: seq<Event>, epoch: nat, base: nat, last: nat, later: nat)
    requires LogOk(log, epoch, base, last) && last <= later
    ensures LogOk(log, epoch, base, later)
  {
    forall i | 0 <= i < |log|
      ensures EventOk(log, i, epoch, base, later)
    {
      assert EventOk(log, i, epoch, base, last);
    }
  }

  lemma LastTwo(log: seq<Event>, epoch: nat, base: nat, last: nat)
    requires LogOk(log, epoch, base, last)
    ensures log != [] ==> EventOk(log, |log| - 1, epoch, base, last)
    ensures 2 <= |log| ==> EventOk(log, |log| - 2, epoch, base, last)
  {
  }

  // One more event leaves the earlier ones as they are.
  lemma LogExtend(log: seq<Event>, e: Event, epoch: nat, base: nat, last: nat, later: nat)
    requires LogOk(log, epoch, base, last) && last <= later && EventOk(log + [e], |log|, epoch, base, later)
    ensures LogOk(log + [e], epoch, base, later)
  {
    forall i | 0 <= i < |log| + 1
      ensures EventOk(log + [e], i, epoch, base, later)
    {
      if i < |log| {
        assert EventOk(log, i, epoch, base, last);
      }
    }
  }

  // A new round.
  lemma LogSend(p: Probe, log: seq<Event>, imported: Health, epoch: nat, base: nat, last: nat, t: nat)
    requires LogOk(log, epoch, base, last) && Agrees(p, log, imported, epoch) && !p.awaitingReply
    requires p.nextProbeTime <= t && base <= last
    ensures var log' := log + [Sent(t, last + 1)];
            LogOk(log', epoch, base, last + 1)
            && Agrees(Started(p, t, Encode(epoch, last + 1)).(awaitingReply := true), log', imported, epoch)
  {
    hide LogOk;
    hide Encode;
    hide Results;
    hide Replay;
    LastTwo(log, epoch, base, last);
    ResultsExtend(log, Sent(t, last + 1));
    LogExtend(log, Sent(t, last + 1), epoch, base, last, last + 1);
  }

  // The result of the round in flight.
  lemma LogResult(p: Probe, log: seq<Event>, imported: Health, epoch: nat, base: nat, last: nat, e: Event)
    requires LogOk(log, epoch, base, last) && Agrees(p, log, imported, epoch) && p.awaitingReply
    requires !e.Sent? && p.nextProbeTime <= e.time + INTERVAL
    requires e.Echo? ==> e.datagram == p.token && e.time < p.probeDeadline
    requires e.Miss? && e.cause == DeadlinePassed ==> p.probeDeadline <= e.time
    ensures LogOk(log + [e], epoch, base, last) && Agrees(Completed(p, e.Echo?), log + [e], imported, epoch)
  {
    hide LogOk;
    hide Encode;
    hide Results;
    hide Replay;
    LastTwo(log, epoch, base, last);
    ResultsExtend(log, e);
    ReplayExtend(imported, Results(log), e.Echo?);
    LogExtend(log, e, epoch, base, last, last);
  }

  // No packet but the one sent in the round itself can complete it: not the packet of an earlier
  // round, nor one of a replaced checker, whose numbers are at most base.
  lemma NoStaleEcho(log: seq<Event>, epoch: nat, base: nat, last: nat, i: nat, other: nat)
    requires LogOk(log, epoch, base, last) && epoch <= U64_MAX && last <= U64_MAX && other <= U64_MAX
    requires i < |log| && log[i].Echo?
    ensures 1 <= i && log[i - 1].Sent? && log[i].datagram == Encode(epoch, log[i - 1].number)
    ensures other != log[i - 1].number ==> log[i].datagram != Encode(epoch, other)
    ensures other <= base ==> log[i].datagram != Encode(epoch, other)
    ensures forall j :: 0 <= j < i - 1 && log[j].Sent? ==> log[i].datagram != Encode(epoch, log[j].number)
  {
    assert EventOk(log, i, epoch, base, last) && (1 <= i ==> EventOk(log, i - 1, epoch, base, last));
    assert forall j :: 0 <= j < |log| && log[j].Sent? ==> EventOk(log, j, epoch, base, last);
    if log[i].datagram == Encode(epoch, other) {
      EncodeInjective(epoch, log[i - 1].number, epoch, other);
    }
    forall j | 0 <= j < i - 1 && log[j].Sent?
      ensures log[i].datagram != Encode(epoch, log[j].number)
    {
      NumbersIncrease(log, epoch, base, last, j, i - 1);
      if log[i].datagram == Encode(epoch, log[j].number) {
        EncodeInjective(epoch, log[i - 1].number, epoch, log[j].number);
      }
    }
  }

  lemma {:induction false} NumbersIncrease(log: seq<Event>, epoch: nat, base: nat, last: nat, j: nat, i: nat)
    requires LogOk(log, epoch, base, last) && j < i < |log| && log[j].Sent? && log[i].Sent?
    ensures log[j].number < log[i].number && log[j].time + INTERVAL <= log[i].time
    decreases i
  {
    assert EventOk(log, i, epoch, base, last) && EventOk(log, j, epoch, base, last);
    assert j <= i - 2;
    if j < i - 2 {
      NumbersIncrease(log, epoch, base, last, j, i - 2);
    }
  }

  // The packets sent in a log carry numbers up to n.
  ghost predicate SentUpTo(log: seq<Event>, n: nat) {
    forall i :: 0 <= i < |log| && log[i].Sent? ==> log[i].number <= n
  }

  lemma LogIsBounded(log: seq<Event>, epoch: nat, base: nat, last: nat, n: nat)
    requires LogOk(log, epoch, base, last) && last <= n
    ensures SentUpTo(log, n)
  {
    forall i | 0 <= i < |log| && log[i].Sent?
      ensures log[i].number <= n
    {
      assert EventOk(log, i, epoch, base, last);
    }
  }
}
