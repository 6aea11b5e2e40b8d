/** Health of an upstream from its probe results (`counter.rs`, `checker.rs`). */
module HealthCheck {
  import opened Wrappers
  import opened Machine

  /* ------------------------------- what the health is ------------------------------- */

  /** The `n` results before position `k` are all `b`. */
  predicate Run(hist: seq<bool>, k: nat, b: bool, n: nat) {
    n <= k <= |hist| && forall i | k - n <= i < k :: hist[i] == b
  }

  /** A threshold of 0 acts like 1. */
  datatype Thresholds = Thresholds(unhealthy: nat, healthy: nat) {
    predicate Valid() {
      unhealthy <= U32_MAX && healthy <= U32_MAX
    }

    function Fails(): nat {
      if unhealthy == 0 then 1 else unhealthy
    }

    function Oks(): nat {
      if healthy == 0 then 1 else healthy
    }
  }

  /** A run of failures ends at `k` and no run of successes ends later. */
  predicate DownSince(t: Thresholds, hist: seq<bool>, k: nat) {
    && Run(hist, k, false, t.Fails())
    && forall j | k < j <= |hist| :: !Run(hist, j, true, t.Oks())
  }

  /** Some run of failures has not since been followed by a run of successes. */
  predicate Down(t: Thresholds, hist: seq<bool>) {
    exists k | 0 <= k <= |hist| :: DownSince(t, hist, k)
  }

  /* --------------------------------- the counter --------------------------------- */

  datatype Count = Count(ok: nat, fail: nat, healthy: bool)

  function Bump(n: nat): nat {
    if n < U32_MAX then n + 1 else n
  }

  function Step(t: Thresholds, c: Count, ok: bool): Count {
    if ok then
      if !c.healthy && Bump(c.ok) >= t.healthy then Count(0, 0, true) else Count(Bump(c.ok), 0, c.healthy)
    else
      if c.healthy && Bump(c.fail) >= t.unhealthy then Count(0, 0, false) else Count(0, Bump(c.fail), c.healthy)
  }

  /** The counter after a history of probes, starting healthy. */
  function After(t: Thresholds, hist: seq<bool>): Count {
    if hist == [] then Count(0, 0, true) else Step(t, After(t, hist[..|hist| - 1]), hist[|hist| - 1])
  }

  function Trailing(hist: seq<bool>, b: bool): nat {
    if hist != [] && hist[|hist| - 1] == b then 1 + Trailing(hist[..|hist| - 1], b) else 0
  }

  lemma {:induction false} TrailingIsRun(hist: seq<bool>, b: bool, n: nat)
    ensures Trailing(hist, b) <= |hist|
    ensures Run(hist, |hist|, b, n) <==> n <= Trailing(hist, b)
  {
    var m := |hist| - 1;
    if hist != [] && hist[m] == b {
      TrailingIsRun(hist[..m], b, if n == 0 then 0 else n - 1);
      if n > 0 && n - 1 <= Trailing(hist[..m], b) {
        assert Run(hist[..m], m, b, n - 1);
        assert forall i | m - (n - 1) <= i < m :: hist[i] == hist[..m][i];
      }
      if Run(hist, |hist|, b, n) && n > 0 {
        assert Run(hist[..m], m, b, n - 1);
      }
    } else if hist != [] && n > 0 {
      assert hist[m] != b;
    }
  }

  lemma RunOfPrefix(hist: seq<bool>, ok: bool, k: nat, b: bool, n: nat)
    requires k <= |hist|
    ensures Run(hist + [ok], k, b, n) <==> Run(hist, k, b, n)
  {
    assert forall i | 0 <= i < |hist| :: (hist + [ok])[i] == hist[i];
  }

  lemma DownSinceOfPrefix(t: Thresholds, hist: seq<bool>, ok: bool, k: nat)
    requires k <= |hist|
    ensures DownSince(t, hist + [ok], k) <==>
              DownSince(t, hist, k) && !Run(hist + [ok], |hist| + 1, true, t.Oks())
  {
    RunOfPrefix(hist, ok, k, false, t.Fails());
    forall j | k < j <= |hist|
      ensures Run(hist + [ok], j, true, t.Oks()) <==> Run(hist, j, true, t.Oks())
    {
      RunOfPrefix(hist, ok, j, true, t.Oks());
    }
  }

  /** One more result: a failure can only complete a run of failures, a success one of successes. */
  lemma DownStep(t: Thresholds, hist: seq<bool>, ok: bool)
    ensures var next, n := hist + [ok], |hist| + 1;
            Down(t, next) <==> if ok then Down(t, hist) && !Run(next, n, true, t.Oks())
                               else Down(t, hist) || Run(next, n, false, t.Fails())
  {
    var next, n := hist + [ok], |hist| + 1;
    assert next[n - 1] == ok;
    forall k | 0 <= k <= |hist|
      ensures DownSince(t, next, k) <==> DownSince(t, hist, k) && !Run(next, n, true, t.Oks())
    {
      DownSinceOfPrefix(t, hist, ok, k);
    }
    assert !ok ==> !Run(next, n, true, t.Oks());
    assert DownSince(t, next, n) <==> Run(next, n, false, t.Fails());
    assert ok ==> !Run(next, n, false, t.Fails());
    if Down(t, hist) && !Run(next, n, true, t.Oks()) {
      var k :| 0 <= k <= |hist| && DownSince(t, hist, k);
      assert DownSince(t, next, k);
    }
    if Down(t, next) {
      var k :| 0 <= k <= |next| && DownSince(t, next, k);
      assert k <= |hist| ==> DownSince(t, hist, k);
    }
  }

  /** The counter knows the run that matters for its state, and its state is the health. */
  lemma {:induction false} CounterIsExact(t: Thresholds, hist: seq<bool>)
    requires t.Valid()
    ensures var c := After(t, hist);
            && (c.healthy <==> !Down(t, hist))
            && (c.healthy ==> c.fail == Trailing(hist, false) < t.Fails())
            && (!c.healthy ==> c.ok == Trailing(hist, true) < t.Oks())
  {
    if hist == [] {
      assert !Run(hist, 0, false, t.Fails());
    } else {
      var m := |hist| - 1;
      var h, ok := hist[..m], hist[m];
      assert hist == h + [ok];
      CounterIsExact(t, h);
      DownStep(t, h, ok);
      TrailingIsRun(hist, true, t.Oks());
      TrailingIsRun(hist, false, t.Fails());
    }
  }

  /* --------------------------------- transitions --------------------------------- */

  /** The reports of `record`: the new state, whenever it changes. */
  function Reports(t: Thresholds, hist: seq<bool>): seq<bool> {
    if hist == [] then []
    else
      var h := hist[..|hist| - 1];
      Reports(t, h) + (if After(t, hist).healthy != After(t, h).healthy then [After(t, hist).healthy] else [])
  }

  /** Reports alternate, beginning with "unhealthy", and the last one is the current state. */
  lemma {:induction false} ReportsAlternate(t: Thresholds, hist: seq<bool>)
    ensures var r := Reports(t, hist);
            && (forall i | 0 <= i < |r| :: r[i] <==> i % 2 == 1)
            && (After(t, hist).healthy <==> |r| % 2 == 0)
  {
    if hist != [] {
      ReportsAlternate(t, hist[..|hist| - 1]);
    }
  }

  /* ------------------------------- mutable counterparts ------------------------------- */

  class ConsecutiveCounter {
    var consecutiveOk: nat
    var consecutiveFail: nat
    const thresholds: Thresholds
    var isHealthy: bool
    ghost var history: seq<bool>

    ghost predicate Valid()
      reads this
    {
      && thresholds.Valid()
      && Count(consecutiveOk, consecutiveFail, isHealthy) == After(thresholds, history)
      && (isHealthy <==> !Down(thresholds, history))
    }

    constructor (thresholds: Thresholds)
      requires thresholds.Valid()
      ensures Valid() && history == [] && isHealthy && this.thresholds == thresholds
    {
      this.thresholds := thresholds;
      consecutiveOk, consecutiveFail, isHealthy := 0, 0, true;
      history := [];
      CounterIsExact(thresholds, []);
    }

    method Record(ok: bool) returns (report: Option<bool>)
      requires Valid()
      modifies this
      ensures Valid() && history == old(history) + [ok]
      ensures report == if isHealthy != old(isHealthy) then Some(isHealthy) else None
    {
      report := None;
      if ok {
        consecutiveOk := Bump(consecutiveOk);
        consecutiveFail := 0;
        if !isHealthy && consecutiveOk >= thresholds.healthy {
          isHealthy := true;
          consecutiveOk := 0;
          report := Some(true);
        }
      } else {
        consecutiveFail := Bump(consecutiveFail);
        consecutiveOk := 0;
        if isHealthy && consecutiveFail >= thresholds.unhealthy {
          isHealthy := false;
          consecutiveFail := 0;
          report := Some(false);
        }
      }
      history := history + [ok];
      assert history[..|history| - 1] == old(history);
      CounterIsExact(thresholds, history);
    }
  }

  /** One checker task: a counter for each upstream and the flags the request path reads. */
  class HealthChecker {
    const counters: seq<ConsecutiveCounter>
    var flags: seq<bool>

    ghost predicate Valid()
      reads this, counters
    {
      && |flags| == |counters|
      && (forall i, j | 0 <= i < j < |counters| :: counters[i] != counters[j])
      && forall i | 0 <= i < |counters| :: counters[i].Valid() && flags[i] == counters[i].isHealthy
    }

    constructor (counters: seq<ConsecutiveCounter>)
      requires forall i, j | 0 <= i < j < |counters| :: counters[i] != counters[j]
      requires forall i | 0 <= i < |counters| :: counters[i].Valid() && counters[i].history == []
      ensures Valid() && this.counters == counters
    {
      this.counters := counters;
      flags := seq(|counters|, i => true);
    }

    /** A tick records one result for each upstream; afterwards every flag is again the health that the
        whole history of its upstream gives. */
    method Tick(results: seq<bool>)
      requires Valid() && |results| == |counters|
      modifies this, counters
      ensures Valid()
      ensures forall i | 0 <= i < |counters| ::
                && counters[i].history == old(counters[i].history) + [results[i]]
                && (flags[i] <==> !Down(counters[i].thresholds, counters[i].history))
    {
      hide Down, After;
      var i := 0;
      while i < |counters|
        invariant 0 <= i <= |counters| && Valid()
        invariant forall j | 0 <= j < i :: counters[j].history == old(counters[j].history) + [results[j]]
        invariant forall j | i <= j < |counters| :: counters[j].history == old(counters[j].history)
      {
        var report := counters[i].Record(results[i]);
        if report.Some? {
          flags := flags[i := report.value];
        }
        i := i + 1;
      }
    }
  }
}
