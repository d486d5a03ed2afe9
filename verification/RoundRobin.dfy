/**
 Round robin over a fixed pool (src/core/RoundRobinScheduler.h) and its use with an eligibility
 filter that may change from call to call (src/control/HealthSelection.cpp).
 */
module RoundRobin {
  import opened Common

  function After(i: nat, n: nat): (r: nat)
    requires i < n
    ensures r < n
  {
    if i == n - 1 then 0 else i + 1
  }

  // How many steps the cursor is from x, going round a pool of n.
  function Steps(cursor: nat, x: nat, n: nat): (d: nat)
    requires cursor < n && x < n
    ensures d < n
  {
    if cursor <= x then x - cursor else x + n - cursor
  }

  // p is the first eligible backend at or after the cursor.
  ghost predicate IsPick(cursor: nat, eligible: seq<bool>, p: nat)
    requires cursor < |eligible|
  {
    && p < |eligible| && eligible[p]
    && forall x :: 0 <= x < |eligible| && Steps(cursor, x, |eligible|) < Steps(cursor, p, |eligible|) ==> !eligible[x]
  }

  class RoundRobinScheduler {
    const backendCount: nat
    var nextBackendIndex: nat

    ghost predicate Valid()
      reads this
    {
      nextBackendIndex < backendCount
    }

    constructor (backendCount: nat)
      requires backendCount != 0
      ensures Valid() && this.backendCount == backendCount && nextBackendIndex == 0
    {
      this.backendCount, nextBackendIndex := backendCount, 0;
    }

    method SelectNextBackendIndex() returns (selected: nat)
      requires Valid()
      modifies this
      ensures Valid() && selected == old(nextBackendIndex) && nextBackendIndex == After(selected, backendCount)
    {
      selected := nextBackendIndex;
      nextBackendIndex := if nextBackendIndex == backendCount - 1 then 0 else nextBackendIndex + 1;
    }
  }

  // selectEligibleBackendIndex; `fault` is the logic_error, which never happens. Without an
  // eligible backend the cursor stays; otherwise it moves just past the one picked.
  method SelectEligibleBackendIndex(scheduler: RoundRobinScheduler, eligible: seq<bool>) returns (r: Option<nat>, fault: bool)
    requires scheduler.Valid() && |eligible| == scheduler.backendCount
    modifies scheduler
    ensures scheduler.Valid() && !fault
    ensures r == None <==> forall x :: 0 <= x < |eligible| ==> !eligible[x]
    ensures r == None ==> scheduler.nextBackendIndex == old(scheduler.nextBackendIndex)
    ensures r.Some? ==> IsPick(old(scheduler.nextBackendIndex), eligible, r.value)
    ensures r.Some? ==> scheduler.nextBackendIndex == After(r.value, |eligible|)
  {
    r, fault := None, false;
    if true !in eligible {
      return;
    }
    var n := |eligible|;
    ghost var start := scheduler.nextBackendIndex;
    for attempt := 0 to n
      invariant scheduler.Valid() && scheduler.nextBackendIndex == if attempt == n then start else At(start, attempt, n)
      invariant forall x :: 0 <= x < n && Steps(start, x, n) < attempt ==> !eligible[x]
    {
      var index := scheduler.SelectNextBackendIndex();
      assert Steps(start, index, n) == attempt;
      if eligible[index] {
        return Some(index), false;
      }
      assert forall x :: 0 <= x < n && Steps(start, x, n) == attempt ==> x == index;
    }
    assert false;
  }

  // The position `k` steps after the cursor.
  function At(cursor: nat, k: nat, n: nat): (r: nat)
    requires cursor < n && k < n
    ensures r < n && Steps(cursor, r, n) == k
  {
    if cursor + k < n then cursor + k else cursor + k - n
  }

  // ---- Runs ----

  // Successive successful selections, with whatever is eligible at each.
  ghost predicate Run(n: nat, cursors: seq<nat>, eligible: seq<seq<bool>>, picks: seq<nat>) {
    && |cursors| == |picks| + 1 && |eligible| == |picks|
    && (forall i :: 0 <= i < |cursors| ==> cursors[i] < n)
    && forall i :: 0 <= i < |picks| ==>
         |eligible[i]| == n && IsPick(cursors[i], eligible[i], picks[i]) && cursors[i + 1] == After(picks[i], n)
  }

  // A selection that passes over an eligible backend brings the cursor closer to it.
  lemma PassedOverIsCloser(cursor: nat, eligible: seq<bool>, p: nat, b: nat)
    requires cursor < |eligible| && b < |eligible| && eligible[b] && IsPick(cursor, eligible, p) && p != b
    ensures Steps(After(p, |eligible|), b, |eligible|) < Steps(cursor, b, |eligible|)
  {
  }

  // Starvation freedom: a backend that stays eligible is picked after at most as many selections
  // as the cursor is steps away, so at least once in any n, whatever happens to the others.
  lemma {:induction false} NoStarvation(n: nat, cursors: seq<nat>, eligible: seq<seq<bool>>, picks: seq<nat>, b: nat)
    requires Run(n, cursors, eligible, picks) && b < n && cursors[0] < n
    requires forall i :: 0 <= i < |picks| ==> eligible[i][b]
    requires Steps(cursors[0], b, n) < |picks|
    ensures exists i :: 0 <= i <= Steps(cursors[0], b, n) && picks[i] == b
    decreases |picks|
  {
    if picks[0] == b {
      return;
    }
    PassedOverIsCloser(cursors[0], eligible[0], picks[0], b);
    NoStarvation(n, cursors[1..], eligible[1..], picks[1..], b);
    var i :| 0 <= i <= Steps(cursors[1], b, n) && picks[1..][i] == b;
    assert picks[i + 1] == b;
  }

  lemma ChosenInEveryN(n: nat, cursors: seq<nat>, eligible: seq<seq<bool>>, picks: seq<nat>, b: nat)
    requires Run(n, cursors, eligible, picks) && b < n == |picks|
    requires forall i :: 0 <= i < |picks| ==> eligible[i][b]
    ensures b in picks
  {
    NoStarvation(n, cursors, eligible, picks, b);
  }

  // ---- Fairness for a fixed set ----

  function Count(picks: seq<nat>, x: nat): nat {
    if picks == [] then 0 else Count(picks[..|picks| - 1], x) + if picks[|picks| - 1] == x then 1 else 0
  }

  ghost predicate Constant(eligible: seq<seq<bool>>, e: seq<bool>) {
    forall i :: 0 <= i < |eligible| ==> eligible[i] == e
  }

  // Of two eligible backends the one nearer to the first cursor is ahead by one exactly while the
  // cursor is past it and not past the other.
  lemma {:induction false} LeadOfNearer(n: nat, cursors: seq<nat>, eligible: seq<seq<bool>>, picks: seq<nat>, e: seq<bool>, a: nat, b: nat)
    requires Run(n, cursors, eligible, picks) && Constant(eligible, e) && |e| == n && cursors[0] < n
    requires a < n && b < n && e[a] && e[b] && Steps(cursors[0], a, n) < Steps(cursors[0], b, n)
    ensures var d := Steps(cursors[0], cursors[|picks|], n);
            Count(picks, a) == Count(picks, b) + if Steps(cursors[0], a, n) < d <= Steps(cursors[0], b, n) then 1 else 0
    decreases |picks|
  {
    if picks != [] {
      var last := |picks| - 1;
      LeadOfNearer(n, cursors[..last + 1], eligible[..last], picks[..last], e, a, b);
      assert eligible[last] == e;
      LeadStep(cursors[0], cursors[last], e, picks[last], a, b);
    }
  }

  // One selection, seen from the first cursor.
  lemma LeadStep(start: nat, cursor: nat, e: seq<bool>, p: nat, a: nat, b: nat)
    requires start < |e| && cursor < |e| && a < |e| && b < |e| && e[a] && e[b] && IsPick(cursor, e, p)
    requires Steps(start, a, |e|) < Steps(start, b, |e|)
    ensures var n := |e|;
            var (da, db) := (Steps(start, a, n), Steps(start, b, n));
            var (before, after) := (Steps(start, cursor, n), Steps(start, After(p, n), n));
            (if da < after <= db then 1 else 0) - (if da < before <= db then 1 else 0)
            == (if p == a then 1 else 0) - (if p == b then 1 else 0)
  {
    var n := |e|;
    assert Steps(cursor, p, n) <= Steps(cursor, a, n) && Steps(cursor, p, n) <= Steps(cursor, b, n);
  }

  lemma CountsAreClose(n: nat, cursors: seq<nat>, eligible: seq<seq<bool>>, picks: seq<nat>, e: seq<bool>, a: nat, b: nat)
    requires Run(n, cursors, eligible, picks) && Constant(eligible, e) && |e| == n && a < n && b < n && e[a] && e[b]
    ensures Count(picks, a) <= Count(picks, b) + 1
  {
    if Steps(cursors[0], a, n) < Steps(cursors[0], b, n) {
      LeadOfNearer(n, cursors, eligible, picks, e, a, b);
    } else if a != b {
      LeadOfNearer(n, cursors, eligible, picks, e, b, a);
    }
  }

  // The number of eligible backends among the first j, and how often those were picked.
  function Size(e: seq<bool>, j: nat): nat
    requires j <= |e|
  {
    if j == 0 then 0 else Size(e, j - 1) + if e[j - 1] then 1 else 0
  }

  function Total(picks: seq<nat>, e: seq<bool>, j: nat): nat
    requires j <= |e|
  {
    if j == 0 then 0 else Total(picks, e, j - 1) + if e[j - 1] then Count(picks, j - 1) else 0
  }

  lemma {:induction false} TotalExtends(picks: seq<nat>, e: seq<bool>, j: nat)
    requires picks != [] && j <= |e|
    requires var p := picks[|picks| - 1]; p < |e| && e[p]
    ensures Total(picks, e, j) == Total(picks[..|picks| - 1], e, j) + if picks[|picks| - 1] < j then 1 else 0
  {
    if j != 0 {
      TotalExtends(picks, e, j - 1);
    }
  }

  // Every selection picks one eligible backend.
  lemma {:induction false} TotalIsLength(picks: seq<nat>, e: seq<bool>)
    requires forall i :: 0 <= i < |picks| ==> picks[i] < |e| && e[picks[i]]
    ensures Total(picks, e, |e|) == |picks|
  {
    if picks == [] {
      NoPicks(e, |e|);
    } else {
      TotalIsLength(picks[..|picks| - 1], e);
      TotalExtends(picks, e, |e|);
    }
  }

  lemma {:induction false} NoPicks(e: seq<bool>, j: nat)
    requires j <= |e|
    ensures Total([], e, j) == 0
  {
    if j != 0 {
      NoPicks(e, j - 1);
    }
  }

  // If every count is within one of c, and that of b is c, the total is strictly within one of c
  // per backend.
  lemma {:induction false} TotalBounds(picks: seq<nat>, e: seq<bool>, j: nat, b: nat, c: nat)
    requires j <= |e| && b < |e| && e[b] && Count(picks, b) == c
    requires forall x :: 0 <= x < |e| && e[x] ==> c <= Count(picks, x) + 1 && Count(picks, x) <= c + 1
    ensures Size(e, j) * c - Size(e, j) <= Total(picks, e, j) - (if b < j then 1 else 0)
    ensures Total(picks, e, j) + (if b < j then 1 else 0) <= Size(e, j) * c + Size(e, j)
  {
    if j != 0 {
      TotalBounds(picks, e, j - 1, b, c);
      assert (Size(e, j - 1) + 1) * c == Size(e, j - 1) * c + c;
    }
  }

  // Fairness: with k backends eligible throughout, any m selections pick each of them either
  // floor(m / k) or ceil(m / k) times.
  lemma Fairness(n: nat, cursors: seq<nat>, eligible: seq<seq<bool>>, picks: seq<nat>, e: seq<bool>, b: nat)
    requires Run(n, cursors, eligible, picks) && Constant(eligible, e) && |e| == n && b < n && e[b]
    ensures var (k, m) := (Size(e, n), |picks|);
            0 < k && m / k <= Count(picks, b) <= (m + k - 1) / k
  {
    forall x | 0 <= x < n && e[x]
      ensures Count(picks, b) <= Count(picks, x) + 1 && Count(picks, x) <= Count(picks, b) + 1
    {
      CountsAreClose(n, cursors, eligible, picks, e, b, x);
      CountsAreClose(n, cursors, eligible, picks, e, x, b);
    }
    assert forall i :: 0 <= i < |picks| ==> eligible[i] == e;
    TotalIsLength(picks, e);
    TotalBounds(picks, e, n, b, Count(picks, b));
    SomeEligible(e, n, b);
    Quotients(|picks|, Size(e, n), Count(picks, b));
  }

  lemma {:induction false} SomeEligible(e: seq<bool>, j: nat, b: nat)
    requires b < j <= |e| && e[b]
    ensures 0 < Size(e, j)
  {
    if b < j - 1 {
      SomeEligible(e, j - 1, b);
    }
  }

  lemma Quotients(m: nat, k: nat, c: nat)
    requires 0 < k && k * c - k < m < k * c + k
    ensures m / k <= c <= (m + k - 1) / k
  {
    FloorBounds(m, k, c + 1);
    FloorBounds(m + k - 1, k, c);
    assert k * (c + 1) == k * c + k;
  }

  lemma FloorBounds(m: nat, k: nat, c: nat)
    requires 0 < k
    ensures k * c <= m ==> c <= m / k
    ensures m < k * c ==> m / k < c
  {
    var q := m / k;
    assert m == k * q + m % k;
    Monotone(k, c, q);
    Monotone(k, q + 1, c);
    assert k * (q + 1) == k * q + k;
  }

  lemma Monotone(k: nat, a: nat, b: nat)
    ensures a <= b ==> k * a <= k * b
  {
  }
}
