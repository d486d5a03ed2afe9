/**
 The run-length health machine: two successes in a row make a target Healthy, three failures in
 a row Unhealthy. The source has it twice, in HealthState.h and in the UDP probe checker; both
 copies are proved against Step, and Step against the whole history of results.
 */
module ProbeHealth {
  import opened Common

  datatype Status = Unknown | Healthy | Unhealthy

  datatype Health = Health(status: Status, successes: nat, failures: nat)

  const HEALTHY_RUN: nat := 2
  const UNHEALTHY_RUN: nat := 3
  const INITIAL := Health(Unknown, 0, 0)

  // One completed round.
  function Step(h: Health, success: bool): Health {
    if success then
      var run := Min(h.successes + 1, HEALTHY_RUN);
      Health(if run == HEALTHY_RUN then Healthy else h.status, run, 0)
    else
      var run := Min(h.failures + 1, UNHEALTHY_RUN);
      Health(if run == UNHEALTHY_RUN then Unhealthy else h.status, 0, run)
  }

  // The machine after the results `rs`, started in h.
  function Replay(h: Health, rs: seq<bool>): Health {
    if rs == [] then h else Step(Replay(h, rs[..|rs| - 1]), rs[|rs| - 1])
  }

  // The length of the run of b at the end of rs.
  function TrailingRun(rs: seq<bool>, b: bool): (n: nat)
    ensures n <= |rs|
  {
    if rs == [] || rs[|rs| - 1] != b then 0 else 1 + TrailingRun(rs[..|rs| - 1], b)
  }

  // Result i completes a run of two successes, or of three failures.
  ghost predicate Recovers(rs: seq<bool>, i: int) {
    1 <= i < |rs| && rs[i - 1] && rs[i]
  }

  ghost predicate Fails(rs: seq<bool>, i: int) {
    2 <= i < |rs| && !rs[i - 2] && !rs[i - 1] && !rs[i]
  }

  // The latest run that decided is one of successes, or one of failures.
  ghost predicate RecoveredLast(rs: seq<bool>) {
    exists i :: Recovers(rs, i) && forall j :: i < j < |rs| ==> !Fails(rs, j)
  }

  ghost predicate FailedLast(rs: seq<bool>) {
    exists i :: Fails(rs, i) && forall j :: i < j < |rs| ==> !Recovers(rs, j)
  }

  // A run of n is exactly n equal results at the end.
  lemma {:induction false} TrailingRunMeaning(rs: seq<bool>, b: bool)
    ensures var n := TrailingRun(rs, b);
            (forall i :: |rs| - n <= i < |rs| ==> rs[i] == b) && (n < |rs| ==> rs[|rs| - n - 1] != b)
  {
    if rs != [] && rs[|rs| - 1] == b {
      var before := rs[..|rs| - 1];
      TrailingRunMeaning(before, b);
      forall i | |rs| - TrailingRun(rs, b) <= i < |rs| ensures rs[i] == b {
        if i < |rs| - 1 {
          assert rs[i] == before[i];
        }
      }
    }
  }

  // The counters are the trailing run lengths, capped at 2 and 3.
  lemma {:induction false} CountersAreRuns(rs: seq<bool>)
    ensures Replay(INITIAL, rs).successes == Min(TrailingRun(rs, true), HEALTHY_RUN)
    ensures Replay(INITIAL, rs).failures == Min(TrailingRun(rs, false), UNHEALTHY_RUN)
  {
    if rs != [] {
      CountersAreRuns(rs[..|rs| - 1]);
    }
  }

  lemma Runs(rs: seq<bool>)
    ensures 2 <= TrailingRun(rs, true) <==> 1 <= |rs| && Recovers(rs, |rs| - 1)
    ensures 3 <= TrailingRun(rs, false) <==> 1 <= |rs| && Fails(rs, |rs| - 1)
    ensures !(Recovers(rs, |rs| - 1) && Fails(rs, |rs| - 1))
  {
    TrailingRunMeaning(rs, true);
    TrailingRunMeaning(rs, false);
  }

  // The status is decided by the latest run that reached 2 successes or 3 failures.
  lemma {:induction false} StatusIsLatestRun(rs: seq<bool>)
    ensures var s := Replay(INITIAL, rs).status;
            (s == Healthy <==> RecoveredLast(rs)) && (s == Unhealthy <==> FailedLast(rs))
    ensures Replay(INITIAL, rs).status == Unknown <==>
              forall i :: 0 <= i < |rs| ==> !Recovers(rs, i) && !Fails(rs, i)
  {
    hide Recovers;
    hide Fails;
    hide RecoveredLast;
    hide FailedLast;
    if rs == [] {
      NothingDecided();
    } else {
      var last := |rs| - 1;
      StatusIsLatestRun(rs[..last]);
      CountersAreRuns(rs[..last]);
      Runs(rs);
      LatestRunExtends(rs);
    }
  }

  lemma NothingDecided()
    ensures !RecoveredLast([]) && !FailedLast([])
  {
  }

  // How one more result changes which run decided last.
  lemma LatestRunExtends(rs: seq<bool>)
    requires rs != []
    ensures var last, before := |rs| - 1, rs[..|rs| - 1];
            && (RecoveredLast(rs) <==> Recovers(rs, last) || (!Fails(rs, last) && RecoveredLast(before)))
            && (FailedLast(rs) <==> Fails(rs, last) || (!Recovers(rs, last) && FailedLast(before)))
            && forall i :: 0 <= i < last ==> (Recovers(rs, i) <==> Recovers(before, i)) && (Fails(rs, i) <==> Fails(before, i))
  {
    var last, before := |rs| - 1, rs[..|rs| - 1];
    assert forall i :: 0 <= i < last ==> (Recovers(rs, i) <==> Recovers(before, i)) && (Fails(rs, i) <==> Fails(before, i));
  }

  // A machine that imported the health of an earlier one continues the same history.
  lemma {:induction false} ReplayContinues(h: Health, before: seq<bool>, after: seq<bool>)
    ensures Replay(Replay(h, before), after) == Replay(h, before + after)
    decreases |after|
  {
    if after == [] {
      assert before + after == before;
    } else {
      ReplayContinues(h, before, after[..|after| - 1]);
      assert (before + after)[..|before + after| - 1] == before + after[..|after| - 1];
    }
  }

  // What the import of a reload checks, and every replayed health satisfies.
  predicate Importable(h: Health) {
    h.successes <= HEALTHY_RUN && h.failures <= UNHEALTHY_RUN && (h.successes == 0 || h.failures == 0)
  }

  lemma {:induction false} ReplayIsImportable(rs: seq<bool>)
    ensures Importable(Replay(INITIAL, rs))
    ensures Replay(INITIAL, rs).failures == UNHEALTHY_RUN ==> Replay(INITIAL, rs).status == Unhealthy
    ensures Replay(INITIAL, rs).successes == HEALTHY_RUN ==> Replay(INITIAL, rs).status == Healthy
  {
    if rs != [] {
      ReplayIsImportable(rs[..|rs| - 1]);
    }
  }

  /** The copy used for user-space backends (HealthState.h). */
  class HealthState {
    var status: Status
    var successes: nat
    var failures: nat
    ghost var results: seq<bool>  // every result applied since construction

    ghost predicate Valid()
      reads this
    {
      Health(status, successes, failures) == Replay(INITIAL, results)
    }

    constructor ()
      ensures Valid() && results == []
    {
      status, successes, failures, results := Unknown, 0, 0, [];
    }

    // Reports exactly the changes of the status.
    method ApplyProbeResult(success: bool) returns (changed: bool)
      requires Valid()
      modifies this
      ensures Valid() && results == old(results) + [success]
      ensures changed <==> status != old(status)
    {
      var before := status;
      if success {
        failures := 0;
        successes := Min(successes + 1, HEALTHY_RUN);
        if successes == HEALTHY_RUN {
          status := Healthy;
        }
      } else {
        successes := 0;
        failures := Min(failures + 1, UNHEALTHY_RUN);
        if failures == UNHEALTHY_RUN {
          status := Unhealthy;
        }
      }
      results := results + [success];
      assert results[..|results| - 1] == old(results);
      changed := before != status;
    }
  }
}
