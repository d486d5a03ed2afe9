/**
 The metrics collector (src/metrics/Metrics.cpp): saturating cumulative counters and a gauge of
 active sessions.
 */
module Metrics {
  import opened Common

  datatype StatKind = Created | Closed | BytesC2b | BytesB2c | DatagramC2b | DatagramB2c
                    | Rejected | Dropped | Failure | Timeout

  const MAX_ACTIVE: nat := 1024
  const KINDS: nat := 10

  function Slot(k: StatKind): (i: nat)
    ensures i < KINDS
  {
    match k
    case Created => 0 case Closed => 1 case BytesC2b => 2 case BytesB2c => 3 case DatagramC2b => 4
    case DatagramB2c => 5 case Rejected => 6 case Dropped => 7 case Failure => 8 case Timeout => 9
  }

  // addSaturatingCounter: 64-bit arithmetic that never overflows.
  function AddSaturating(value: nat, amount: nat): (r: (nat, bool))
    requires value <= U64_MAX && amount <= U64_MAX
  {
    if amount >= U64_MAX - value then (U64_MAX, true) else (value + amount, false)
  }

  // The flag is raised as soon as the sum reaches the maximum, so once too early: at exactly
  // 2^64 - 1 it is set although nothing was cut off.
  lemma SaturationFlag(value: nat, amount: nat)
    requires value <= U64_MAX && amount <= U64_MAX
    ensures AddSaturating(value, amount).0 == Min(U64_MAX, value + amount)
    ensures AddSaturating(value, amount).1 <==> U64_MAX <= value + amount
    ensures AddSaturating(value, amount).1 && AddSaturating(value, amount).0 == value + amount <==> value + amount == U64_MAX
  {
  }

  // Counters and flag agree with the exact sums.
  ghost predicate Cut(totals: seq<nat>, exact: seq<nat>, saturated: bool) {
    && |totals| == |exact| == KINDS
    && (forall i :: 0 <= i < KINDS ==> totals[i] == Min(U64_MAX, exact[i]))
    && (saturated <==> exists i :: 0 <= i < KINDS && U64_MAX <= exact[i])
  }

  lemma CutStep(totals: seq<nat>, exact: seq<nat>, saturated: bool, k: nat, amount: nat)
    requires Cut(totals, exact, saturated) && k < KINDS && amount <= U64_MAX
    ensures Cut(totals[k := Min(U64_MAX, totals[k] + amount)], exact[k := exact[k] + amount],
                saturated || U64_MAX <= totals[k] + amount)
  {
    var now := exact[k := exact[k] + amount];
    assert U64_MAX <= totals[k] + amount <==> U64_MAX <= now[k];
    if saturated {
      var i :| 0 <= i < KINDS && U64_MAX <= exact[i];
      assert U64_MAX <= now[i];
    }
  }

  class MetricsCollector {
    const udp: bool
    var totals: seq<nat>
    var sessionsActive: nat
    var counterSaturated: bool
    ghost var exact: seq<nat>     // the sums of all recorded amounts, without a limit

    ghost predicate Valid()
      reads this
    {
      && Cut(totals, exact, counterSaturated)
      && sessionsActive <= MAX_ACTIVE && exact[0] == exact[1] + sessionsActive
    }

    constructor (udp: bool)
      ensures Valid() && this.udp == udp && sessionsActive == 0 && !counterSaturated
      ensures forall i :: 0 <= i < KINDS ==> exact[i] == 0
    {
      this.udp := udp;
      totals, exact := seq(KINDS, _ => 0), seq(KINDS, _ => 0);
      sessionsActive, counterSaturated := 0, false;
    }

    // The events the collector takes: lifecycle events in ones and within the gauge, datagram
    // events for UDP only.
    predicate Accepts(kind: StatKind, amount: nat)
      reads this`sessionsActive
    {
      match kind
      case Created => amount == 1 && sessionsActive < MAX_ACTIVE
      case Closed => amount == 1 && sessionsActive != 0
      case DatagramC2b => udp
      case DatagramB2c => udp
      case Dropped => udp
      case _ => true
    }

    method IncrementCounter(kind: StatKind, amount: nat)
      requires |totals| == KINDS && amount <= U64_MAX && totals[Slot(kind)] <= U64_MAX
      modifies this`totals, this`counterSaturated
      ensures totals == old(totals)[Slot(kind) := Min(U64_MAX, old(totals[Slot(kind)]) + amount)]
      ensures counterSaturated <==> old(counterSaturated) || U64_MAX <= old(totals[Slot(kind)]) + amount
    {
      var (value, full) := AddSaturating(totals[Slot(kind)], amount);
      totals := totals[Slot(kind) := value];
      if full {
        counterSaturated := true;
      }
    }

    // recordStatEvent. Every counter is the exact sum cut off at 2^64 - 1, the gauge is exact, and
    // a refused event changes nothing.
    method RecordStatEvent(kind: StatKind, amount: nat) returns (ok: bool)
      requires Valid() && amount <= U64_MAX
      modifies this
      ensures Valid()
      ensures ok <==> old(Accepts(kind, amount))
      ensures exact == if ok then old(exact)[Slot(kind) := old(exact)[Slot(kind)] + amount] else old(exact)
      ensures sessionsActive == if ok && kind == Created then old(sessionsActive) + 1
                                else if ok && kind == Closed then old(sessionsActive) - 1
                                else old(sessionsActive)
      ensures !ok ==> totals == old(totals) && counterSaturated == old(counterSaturated)
    {
      hide Cut;
      CounterBelow(kind);
      ok := true;
      if kind == Created {
        if amount != 1 || sessionsActive >= MAX_ACTIVE {
          return false;
        }
        sessionsActive := sessionsActive + 1;
      } else if kind == Closed {
        if amount != 1 || sessionsActive == 0 {
          return false;
        }
        sessionsActive := sessionsActive - 1;
      } else if kind == DatagramC2b || kind == DatagramB2c || kind == Dropped {
        if !udp {
          return false;
        }
      }
      var k := Slot(kind);
      CutStep(totals, exact, counterSaturated, k, amount);
      CounterBelow(kind);
      IncrementCounter(kind, amount);
      exact := exact[k := exact[k] + amount];
    }

    lemma CounterBelow(kind: StatKind)
      requires Cut(totals, exact, counterSaturated)
      ensures |totals| == |exact| == KINDS && totals[Slot(kind)] <= U64_MAX
    {
    }
  }
}
