/** Choosing an upstream (`load_balance_main.rs`): round robin over the healthy ones. */
module LoadBalance {
  import opened Wrappers
  import opened Machine

  /** The shared health flag of an upstream; without health checking there is none. */
  type Health = Option<bool>

  predicate IsHealthy(u: Health) {
    u.Some? ==> u.value
  }

  predicate Untracked(ups: seq<Health>) {
    forall i | 0 <= i < |ups| :: ups[i].None?
  }

  function Init<T>(s: seq<T>): seq<T>
    requires s != []
  {
    s[..|s| - 1]
  }

  function HealthyCount(ups: seq<Health>): nat {
    if ups == [] then 0 else HealthyCount(Init(ups)) + (if IsHealthy(Last(ups)) then 1 else 0)
  }

  /** The index of the `k`-th healthy upstream, counting from 0. */
  function NthHealthy(ups: seq<Health>, k: nat): (r: Option<nat>)
    ensures r.Some? ==> r.value < |ups|
  {
    if ups == [] then None
    else if NthHealthy(Init(ups), k).Some? then NthHealthy(Init(ups), k)
    else if IsHealthy(Last(ups)) && HealthyCount(Init(ups)) == k then Some(|ups| - 1) else None
  }

  /** `pick_nth_available_index`. The flags are read twice, and may change in between. */
  function Pick(counted: seq<Health>, scanned: seq<Health>, nth: nat): (i: nat)
    requires |counted| == |scanned|
    ensures counted != [] ==> i < |counted|
  {
    var len, healthy := |counted|, HealthyCount(counted);
    if len == 0 then 0
    else if Untracked(counted) || healthy == len || healthy == 0 then nth % len
    else match NthHealthy(scanned, nth % healthy)
      case Some(i) => i
      case None => nth % len
  }

  /** `first_available_index`. */
  function First(ups: seq<Health>): nat {
    if ups == [] || Untracked(ups) then 0
    else match NthHealthy(ups, 0)
      case Some(i) => i
      case None => 0
  }

  /* ------------------------------ the simple definition ------------------------------ */

  /** The healthy indices, in order. */
  function HealthyIndices(ups: seq<Health>): seq<nat> {
    if ups == [] then [] else HealthyIndices(Init(ups)) + (if IsHealthy(Last(ups)) then [|ups| - 1] else [])
  }

  function AllIndices(n: nat): seq<nat> {
    seq(n, i => i)
  }

  /** The upstreams that share the load: the healthy ones, or all when none is. */
  function Available(ups: seq<Health>): seq<nat> {
    var healthy := HealthyIndices(ups);
    if healthy == [] then AllIndices(|ups|) else healthy
  }

  lemma {:induction false} HealthyIndicesAre(ups: seq<Health>)
    ensures var h := HealthyIndices(ups);
            && |h| == HealthyCount(ups) <= |ups|
            && (forall k | 0 <= k < |h| :: NthHealthy(ups, k) == Some(h[k]))
            && (forall k | |h| <= k :: NthHealthy(ups, k) == None)
  {
    if ups != [] {
      HealthyIndicesAre(Init(ups));
    }
  }

  predicate Ascends(h: seq<nat>, n: nat) {
    && (forall k | 0 <= k < |h| :: h[k] < n)
    && (forall j, k | 0 <= j < k < |h| :: h[j] < h[k])
  }

  lemma {:induction false} HealthyIndicesAscend(ups: seq<Health>)
    ensures Ascends(HealthyIndices(ups), |ups|)
  {
    if ups != [] {
      HealthyIndicesAscend(Init(ups));
    }
  }

  lemma {:induction false} HealthyIndicesMember(ups: seq<Health>, i: nat)
    ensures i in HealthyIndices(ups) <==> i < |ups| && IsHealthy(ups[i])
  {
    if ups != [] {
      HealthyIndicesMember(Init(ups), i);
    }
  }

  lemma {:induction false} AllHealthy(ups: seq<Health>)
    requires HealthyCount(ups) == |ups|
    ensures HealthyIndices(ups) == AllIndices(|ups|)
  {
    if ups != [] {
      HealthyIndicesAre(Init(ups));
      AllHealthy(Init(ups));
    }
  }

  lemma {:induction false} UntrackedIsHealthy(ups: seq<Health>)
    requires Untracked(ups)
    ensures HealthyCount(ups) == |ups|
  {
    if ups != [] {
      UntrackedIsHealthy(Init(ups));
    }
  }

  lemma AvailableShape(ups: seq<Health>)
    requires ups != []
    ensures var a := Available(ups);
            && 0 < |a| <= |ups|
            && (forall k | 0 <= k < |a| :: a[k] < |ups|)
            && (forall j, k | 0 <= j < k < |a| :: a[j] < a[k])
            && (forall i | 0 <= i < |ups| :: i in a <==> IsHealthy(ups[i]) || HealthyCount(ups) == 0)
  {
    HealthyIndicesAre(ups);
    HealthyIndicesAscend(ups);
    var a := Available(ups);
    forall i | 0 <= i < |ups|
      ensures i in a <==> IsHealthy(ups[i]) || HealthyCount(ups) == 0
    {
      HealthyIndicesMember(ups, i);
      if HealthyCount(ups) == 0 {
        assert a[i] == i;
      }
    }
  }

  /** While health is stable, the fast paths and the scan are one rule: the available upstreams take turns. */
  lemma PickTakesTurns(ups: seq<Health>, nth: nat)
    requires ups != []
    ensures |Available(ups)| > 0 && Pick(ups, ups, nth) == Available(ups)[nth % |Available(ups)|]
  {
    AvailableShape(ups);
    HealthyIndicesAre(ups);
    if Untracked(ups) {
      UntrackedIsHealthy(ups);
    }
    if HealthyCount(ups) == |ups| {
      AllHealthy(ups);
    }
  }

  /** When health changes between the two scans: the turn is that of the counted upstreams, taken among those that
      are healthy now; if there are too few of them, or the count left no choice, all upstreams share. */
  lemma PickExactly(counted: seq<Health>, scanned: seq<Health>, nth: nat)
    requires |counted| == |scanned| && counted != []
    ensures var k, now := |HealthyIndices(counted)|, HealthyIndices(scanned);
            Pick(counted, scanned, nth)
            == if 0 < k < |counted| && nth % k < |now| then now[nth % k] else nth % |counted|
  {
    HealthyIndicesAre(counted);
    HealthyIndicesAre(scanned);
    if Untracked(counted) {
      UntrackedIsHealthy(counted);
    }
  }

  /** Primary/backup: the lowest healthy index, or 0 when there is none. */
  lemma FirstIsLowest(ups: seq<Health>)
    ensures First(ups) == if HealthyIndices(ups) == [] then 0 else HealthyIndices(ups)[0]
    ensures forall i | 0 <= i < |ups| && IsHealthy(ups[i]) ::
              First(ups) <= i && First(ups) < |ups| && IsHealthy(ups[First(ups)])
  {
    var h := HealthyIndices(ups);
    FirstIsHead(ups);
    HealthyIndicesAscend(ups);
    forall i | 0 <= i < |ups| && IsHealthy(ups[i])
      ensures First(ups) <= i && First(ups) < |ups| && IsHealthy(ups[First(ups)])
    {
      HealthyIndicesMember(ups, i);
      HealthyIndicesMember(ups, h[0]);
      var k :| 0 <= k < |h| && h[k] == i;
    }
  }

  lemma FirstIsHead(ups: seq<Health>)
    ensures First(ups) == if HealthyIndices(ups) == [] then 0 else HealthyIndices(ups)[0]
  {
    HealthyIndicesAre(ups);
    if ups != [] && Untracked(ups) {
      UntrackedIsHealthy(ups);
      AllHealthy(ups);
    }
  }

  /* ----------------------------------- fairness ----------------------------------- */

  /** How often `r` comes up in `m` turns of a wheel of `h`, starting at `c`. */
  function Visits(c: nat, m: nat, h: nat, r: nat): nat
    requires c < h && r < h
    decreases m
  {
    if m == 0 then 0
    else (if c == r then 1 else 0) + Visits(if c + 1 == h then 0 else c + 1, m - 1, h, r)
  }

  /** Turns until `r` comes up. */
  function Wait(c: nat, h: nat, r: nat): (d: nat)
    requires c < h && r < h
    ensures d < h
  {
    if c <= r then r - c else r + h - c
  }

  lemma {:induction false} VisitsInOneRound(c: nat, m: nat, h: nat, r: nat)
    requires c < h && r < h && m <= h
    ensures Visits(c, m, h, r) == if Wait(c, h, r) < m then 1 else 0
    decreases m
  {
    if m > 0 {
      VisitsInOneRound(if c + 1 == h then 0 else c + 1, m - 1, h, r);
    }
  }

  lemma {:induction false} OneMoreRound(c: nat, m: nat, h: nat, r: nat)
    requires c < h && r < h
    ensures Visits(c, m + h, h, r) == Visits(c, m, h, r) + 1
    decreases m
  {
    if m == 0 {
      VisitsInOneRound(c, h, h, r);
    } else {
      OneMoreRound(if c + 1 == h then 0 else c + 1, m - 1, h, r);
    }
  }

  lemma {:induction false} MoreRounds(c: nat, m: nat, h: nat, r: nat, q: nat)
    requires c < h && r < h
    ensures Visits(c, m + h * q, h, r) == Visits(c, m, h, r) + q
    decreases q
  {
    if q > 0 {
      MoreRounds(c, m, h, r, q - 1);
      OneMoreRound(c, m + h * (q - 1), h, r);
      assert m + h * q == m + h * (q - 1) + h;
    }
  }

  /** `n` is floor(m/h) or ceil(m/h). */
  predicate IsShare(n: nat, m: nat, h: nat)
    requires h > 0
  {
    n == m / h || (m % h != 0 && n == m / h + 1)
  }

  lemma VisitsAreFair(c: nat, m: nat, h: nat, r: nat)
    requires c < h && r < h
    ensures IsShare(Visits(c, m, h, r), m, h)
  {
    hide Visits;
    var q, t := m / h, m % h;
    assert m == t + h * q;
    SharesAreFair(c, q, t, h, r);
  }

  lemma SharesAreFair(c: nat, q: nat, t: nat, h: nat, r: nat)
    requires c < h && r < h && t < h
    ensures var n := Visits(c, t + h * q, h, r); n == q || (t != 0 && n == q + 1)
  {
    MoreRounds(c, t, h, r, q);
    VisitsInOneRound(c, t, h, r);
  }

  /** The picks with counter values `start`, `start + 1`, ... while health is stable. */
  function Picks(ups: seq<Health>, start: nat, m: nat): (r: seq<nat>)
    ensures |r| == m
    decreases m
  {
    if m == 0 then [] else [Pick(ups, ups, start)] + Picks(ups, start + 1, m - 1)
  }

  function Times(s: seq<nat>, i: nat): nat {
    if s == [] then 0 else (if s[0] == i then 1 else 0) + Times(s[1..], i)
  }

  lemma {:induction false} MulStep(h: nat, a: nat, b: nat)
    requires a < b
    ensures h * a + h <= h * b
    decreases b
  {
    if a + 1 < b {
      MulStep(h, a, b - 1);
    }
    assert h * b == h * (b - 1) + h;
  }

  lemma ModUnique(n: nat, h: nat, q: nat, r: nat)
    requires r < h && n == h * q + r
    ensures n % h == r
  {
    var q' := n / h;
    if q < q' {
      MulStep(h, q, q');
    } else if q' < q {
      MulStep(h, q', q);
    }
  }

  lemma NextMod(n: nat, h: nat)
    requires h > 0
    ensures (n + 1) % h == if n % h + 1 == h then 0 else n % h + 1
  {
    var q := n / h;
    if n % h + 1 == h {
      assert n + 1 == h * (q + 1);
      ModUnique(n + 1, h, q + 1, 0);
    } else {
      ModUnique(n + 1, h, q, n % h + 1);
    }
  }

  lemma {:induction false} PicksTakeTurns(ups: seq<Health>, start: nat, m: nat, k: nat)
    requires ups != [] && k < |Available(ups)|
    ensures Times(Picks(ups, start, m), Available(ups)[k])
         == Visits(start % |Available(ups)|, m, |Available(ups)|, k)
    decreases m
  {
    hide Pick, Available;
    if m > 0 {
      AvailableShape(ups);
      PickTakesTurns(ups, start);
      NextMod(start, |Available(ups)|);
      PicksTakeTurns(ups, start + 1, m - 1, k);
      assert Picks(ups, start, m)[1..] == Picks(ups, start + 1, m - 1);
    }
  }

  lemma {:induction false} OnlyAvailablePicked(ups: seq<Health>, start: nat, m: nat, i: nat)
    requires ups != [] && i !in Available(ups)
    ensures Times(Picks(ups, start, m), i) == 0
    decreases m
  {
    hide Pick, Available;
    if m > 0 {
      PickTakesTurns(ups, start);
      OnlyAvailablePicked(ups, start + 1, m - 1, i);
      assert Picks(ups, start, m)[1..] == Picks(ups, start + 1, m - 1);
    }
  }

  /** Over any window, each healthy upstream serves floor(m/h) or ceil(m/h) requests and an unhealthy
      one none; when all are unhealthy, all share. */
  lemma RoundRobinIsFair(ups: seq<Health>, start: nat, m: nat, i: nat)
    requires i < |ups|
    ensures var n, h := Times(Picks(ups, start, m), i), if HealthyCount(ups) == 0 then |ups| else HealthyCount(ups);
            if IsHealthy(ups[i]) || HealthyCount(ups) == 0 then IsShare(n, m, h) else n == 0
  {
    hide IsShare, Picks, Times;
    AvailableShape(ups);
    HealthyIndicesAre(ups);
    if i in Available(ups) {
      var k :| 0 <= k < |Available(ups)| && Available(ups)[k] == i;
      PicksTakeTurns(ups, start, m, k);
      VisitsAreFair(start % |Available(ups)|, m, |Available(ups)|, k);
    } else {
      OnlyAvailablePicked(ups, start, m, i);
    }
  }

  /* --------------------------------- the shared counter --------------------------------- */

  /** The counter under concurrent callers: the increment and the reset are two atomic operations, and
      `resets` callers are between them. */
  datatype Turns = Turns(ptr: nat, resets: nat)

  datatype Step = Add | Reset

  predicate Can(c: Turns, st: Step) {
    st.Reset? ==> c.resets > 0
  }

  /** `fetch_add` wraps around. */
  function Incremented(n: nat): nat {
    if n >= USIZE_MAX then 0 else n + 1
  }

  function Next(c: Turns, st: Step): Turns
    requires Can(c, st)
  {
    match st
    case Add => Turns(Incremented(c.ptr), if c.ptr >= USIZE_MAX - 1 then c.resets + 1 else c.resets)
    case Reset => Turns(0, c.resets - 1)
  }

  predicate Runs(c: Turns, steps: seq<Step>)
    decreases |steps|
  {
    steps == [] || (Can(c, steps[0]) && Runs(Next(c, steps[0]), steps[1..]))
  }

  /** The counter values that the callers of a run draw, in the order of their increments. */
  function Drawn(c: Turns, steps: seq<Step>): seq<nat>
    requires Runs(c, steps)
    decreases |steps|
  {
    if steps == [] then []
    else (if steps[0].Add? then [c.ptr] else []) + Drawn(Next(c, steps[0]), steps[1..])
  }

  function Adds(steps: seq<Step>): nat {
    if steps == [] then 0 else (if steps[0].Add? then 1 else 0) + Adds(steps[1..])
  }

  predicate NoAddAfterReset(steps: seq<Step>) {
    steps == [] || (if steps[0].Add? then NoAddAfterReset(steps[1..]) else Adds(steps[1..]) == 0)
  }

  function From(p: nat, n: nat): seq<nat> {
    seq(n, i requires 0 <= i < n => p + i)
  }

  lemma FromStep(p: nat, n: nat)
    requires n > 0
    ensures From(p, n) == [p] + From(p + 1, n - 1)
  {
  }

  lemma {:induction false} DrawnLength(c: Turns, steps: seq<Step>)
    requires Runs(c, steps)
    ensures |Drawn(c, steps)| == Adds(steps)
    ensures c.ptr == 0 && Adds(steps) > 0 ==> Drawn(c, steps)[0] == 0
    decreases |steps|
  {
    if steps != [] {
      DrawnLength(Next(c, steps[0]), steps[1..]);
    }
  }

  lemma {:induction false} NoAddsLeft(steps: seq<Step>)
    requires Adds(steps) == 0
    ensures NoAddAfterReset(steps)
  {
    if steps != [] {
      NoAddsLeft(steps[1..]);
    }
  }

  /** From a counter back at 0, values that go on behind `p > 0` are drawn only by nobody. */
  lemma BackAtZero(c: Turns, steps: seq<Step>, p: nat)
    requires c.ptr == 0 && p > 0 && Runs(c, steps)
    ensures Drawn(c, steps) == From(p, Adds(steps)) <==> Adds(steps) == 0
  {
    DrawnLength(c, steps);
    if Adds(steps) > 0 {
      assert From(p, Adds(steps))[0] == p;
    }
  }

  lemma {:induction false} ConsecutiveFrom(c: Turns, steps: seq<Step>)
    requires c.ptr <= USIZE_MAX && (c.resets > 0 ==> c.ptr == USIZE_MAX) && Runs(c, steps)
    ensures Drawn(c, steps) == From(c.ptr, Adds(steps)) <==>
              NoAddAfterReset(steps) && c.ptr + Adds(steps) <= USIZE_MAX + 1
    decreases |steps|
  {
    hide From;
    if steps == [] {
      FromNothing(c.ptr);
    } else if steps[0].Reset? {
      BackAtZero(Next(c, Reset), steps[1..], c.ptr);
    } else {
      var next, rest := Next(c, Add), steps[1..];
      FromStep(c.ptr, Adds(steps));
      SameTail(c.ptr, Drawn(next, rest), From(c.ptr + 1, Adds(rest)));
      if c.ptr < USIZE_MAX {
        ConsecutiveFrom(next, rest);
      } else {
        BackAtZero(next, rest, c.ptr + 1);
        if Adds(rest) == 0 {
          NoAddsLeft(rest);
        }
      }
    }
  }

  lemma FromNothing(p: nat)
    ensures From(p, 0) == []
  {
  }

  lemma SameTail(x: nat, a: seq<nat>, b: seq<nat>)
    ensures [x] + a == [x] + b <==> a == b
  {
    assert ([x] + a)[1..] == a && ([x] + b)[1..] == b;
  }

  /** In every interleaving of callers the counter values follow one another if and only if nobody draws
      after a reset, and the values do not run past the largest one. */
  lemma CallersDrawInOrder(c: Turns, steps: seq<Step>)
    requires c.resets == 0 && c.ptr <= USIZE_MAX && Runs(c, steps)
    ensures Drawn(c, steps) == From(c.ptr, Adds(steps)) <==>
              NoAddAfterReset(steps) && c.ptr + Adds(steps) <= USIZE_MAX + 1
  {
    ConsecutiveFrom(c, steps);
  }

  /** The upstreams that serve these counter values. */
  function Served(drawn: seq<nat>, ups: seq<Health>): seq<nat> {
    seq(|drawn|, i requires 0 <= i < |drawn| => Pick(ups, ups, drawn[i]))
  }

  lemma {:induction false} PicksAreServed(ups: seq<Health>, p: nat, m: nat)
    ensures Picks(ups, p, m) == Served(From(p, m), ups)
    decreases m
  {
    hide Pick;
    if m > 0 {
      PicksAreServed(ups, p + 1, m - 1);
      FromStep(p, m);
    }
  }

  /** Then the callers take the turns of the window of consecutive values, which are fair. */
  lemma CallersTakeTurns(c: Turns, steps: seq<Step>, ups: seq<Health>)
    requires c.resets == 0 && c.ptr <= USIZE_MAX && Runs(c, steps)
    requires NoAddAfterReset(steps) && c.ptr + Adds(steps) <= USIZE_MAX + 1
    ensures Served(Drawn(c, steps), ups) == Picks(ups, c.ptr, Adds(steps))
  {
    hide Pick, Picks;
    CallersDrawInOrder(c, steps);
    PicksAreServed(ups, c.ptr, Adds(steps));
  }

  /* ------------------------------------ a lone caller ------------------------------------ */

  /** The next counter value of a caller that meets no other. */
  function Following(p: nat): nat {
    if p + 1 >= USIZE_MAX then 0 else p + 1
  }

  /** That is an increment and, at the end, the reset that the same caller owes. */
  function LoneSteps(p: nat): seq<Step> {
    if p + 1 >= USIZE_MAX then [Add, Reset] else [Add]
  }

  function Lone(ups: seq<Health>, p: nat, m: nat): (r: seq<nat>)
    ensures |r| == m
    decreases m
  {
    if m == 0 then [] else [Pick(ups, ups, p)] + Lone(ups, Following(p), m - 1)
  }

  /** Up to the reset and right after it. */
  lemma {:induction false} LoneAt(ups: seq<Health>, p: nat, m: nat, i: nat)
    requires p < USIZE_MAX && i < m && p + i <= USIZE_MAX
    ensures Lone(ups, p, m)[i] == Pick(ups, ups, if p + i == USIZE_MAX then 0 else p + i)
    decreases m
  {
    hide Pick;
    if i > 0 {
      LoneAt(ups, Following(p), m - 1, i - 1);
    }
  }

  /** Turn `n` of the available upstreams. */
  function Turn(ups: seq<Health>, n: nat): nat
    requires ups != []
  {
    AvailableShape(ups);
    Available(ups)[n % |Available(ups)|]
  }

  lemma TurnsAgree(ups: seq<Health>, a: nat, b: nat)
    requires ups != []
    ensures |Available(ups)| > 0
    ensures Turn(ups, a) == Turn(ups, b) <==> a % |Available(ups)| == b % |Available(ups)|
  {
    AvailableShape(ups);
  }

  lemma ModShift(v: nat, h: nat, q: nat)
    requires h > 0
    ensures (v + h * q) % h == v % h
  {
    assert v + h * q == h * (v / h + q) + v % h;
    ModUnique(v + h * q, h, v / h + q, v % h);
  }

  lemma ModMultiple(v: nat, h: nat, n: nat)
    requires h > 0 && n % h == 0
    ensures (v + n) % h == v % h
  {
    assert n == h * (n / h);
    ModShift(v, h, n / h);
  }

  predicate InTurn(ups: seq<Health>, p: nat, m: nat)
    requires ups != []
  {
    forall i | 0 <= i < m :: Lone(ups, p, m)[i] == Turn(ups, p + i)
  }

  lemma BeforeTheReset(ups: seq<Health>, p: nat, m: nat)
    requires ups != [] && p + m <= USIZE_MAX
    ensures InTurn(ups, p, m)
  {
    hide Available, Lone, Pick;
    forall i | 0 <= i < m
      ensures Lone(ups, p, m)[i] == Turn(ups, p + i)
    {
      LoneAt(ups, p, m, i);
      PickTakesTurns(ups, p + i);
    }
  }

  lemma {:induction false} AcrossTheReset(ups: seq<Health>, p: nat, m: nat, i: nat)
    requires ups != [] && p < USIZE_MAX && i < m && |Available(ups)| > 0 && USIZE_MAX % |Available(ups)| == 0
    ensures Lone(ups, p, m)[i] == Turn(ups, p + i)
    decreases m
  {
    hide Available, Pick;
    PickTakesTurns(ups, p);
    if i > 0 {
      var next := Following(p);
      AcrossTheReset(ups, next, m - 1, i - 1);
      if next == 0 {
        ModMultiple(i - 1, |Available(ups)|, USIZE_MAX);
      }
    }
  }

  lemma OutOfTurnAtTheReset(ups: seq<Health>, p: nat, m: nat)
    requires ups != [] && p < USIZE_MAX < p + m && |Available(ups)| > 0
    requires USIZE_MAX % |Available(ups)| != 0
    ensures !InTurn(ups, p, m)
  {
    hide Available, Lone, Turn, Pick;
    var i := USIZE_MAX - p;
    LoneAt(ups, p, m, i);
    PickTakesTurns(ups, 0);
    TurnsAgree(ups, 0, USIZE_MAX);
    TurnIs(ups, 0);
    assert Lone(ups, p, m)[i] != Turn(ups, p + i);
  }

  lemma TurnIs(ups: seq<Health>, n: nat)
    requires ups != []
    ensures |Available(ups)| > 0 && Turn(ups, n) == Available(ups)[n % |Available(ups)|]
  {
    AvailableShape(ups);
  }

  /** A lone caller goes on in turn if and only if it does not meet the reset, or the number of available
      upstreams divides the number of values between two resets. */
  lemma LoneCallerIsInTurnExactly(ups: seq<Health>, p: nat, m: nat)
    requires ups != [] && p < USIZE_MAX
    ensures |Available(ups)| > 0
    ensures InTurn(ups, p, m) <==> p + m <= USIZE_MAX || USIZE_MAX % |Available(ups)| == 0
  {
    hide Available, Lone, Turn;
    TurnIs(ups, 0);
    if p + m <= USIZE_MAX {
      BeforeTheReset(ups, p, m);
    } else if USIZE_MAX % |Available(ups)| == 0 {
      forall i | 0 <= i < m
        ensures Lone(ups, p, m)[i] == Turn(ups, p + i)
      {
        AcrossTheReset(ups, p, m, i);
      }
    } else {
      OutOfTurnAtTheReset(ups, p, m);
    }
  }

  /** Two upstreams: the last value before the reset and the first one after it pick the same one. */
  lemma LoneCallerRepeatsATurn()
    ensures var ups: seq<Health> := [None, None]; Lone(ups, USIZE_MAX - 1, 2) == [0, 0]
  {
    var ups: seq<Health> := [None, None];
    assert Untracked(ups) && Pick(ups, ups, USIZE_MAX - 1) == (USIZE_MAX - 1) % 2 == 0 && Pick(ups, ups, 0) == 0;
    assert Lone(ups, 0, 1) == [Pick(ups, ups, 0)] + [];
  }

  /* -------------------------------------- runs -------------------------------------- */

  predicate Leads(c: Turns, steps: seq<Step>, c': Turns)
    decreases |steps|
  {
    if steps == [] then c == c' else Can(c, steps[0]) && Leads(Next(c, steps[0]), steps[1..], c')
  }

  /** The steps of a lone caller lead to the value that follows. */
  lemma LoneLeads(p: nat)
    requires p < USIZE_MAX
    ensures Leads(Turns(p, 0), LoneSteps(p), Turns(Following(p), 0))
  {
    if p + 1 >= USIZE_MAX {
      assert [Add, Reset][1..] == [Reset] && [Reset][1..] == [];
    } else {
      assert [Add][1..] == [];
    }
  }

  ghost predicate Reachable(c: Turns) {
    exists steps :: Leads(Turns(0, 0), steps, c)
  }

  lemma {:induction false} Climb(p: nat, steps: seq<Step>)
    requires p + |steps| < USIZE_MAX && forall i | 0 <= i < |steps| :: steps[i].Add?
    ensures Leads(Turns(p, 0), steps, Turns(p + |steps|, 0))
    decreases |steps|
  {
    if steps != [] {
      Climb(p + 1, steps[1..]);
    }
  }

  lemma EveryValueIsReached(p: nat)
    requires p < USIZE_MAX
    ensures Reachable(Turns(p, 0))
  {
    var steps := seq(p, i => Add);
    Climb(0, steps);
  }

  /** Two callers that meet at the end both reset, and a value drawn between the resets is drawn again. */
  lemma RacingResetsRepeatAValue()
    ensures var c, steps := Turns(USIZE_MAX - 1, 0), [Add, Add, Reset, Add, Reset, Add];
            Reachable(c) && Runs(c, steps) && Drawn(c, steps) == [USIZE_MAX - 1, USIZE_MAX, 0, 0]
  {
    EveryValueIsReached(USIZE_MAX - 1);
    hide Runs, Drawn;
    NoSteps(Turns(1, 0));
    assert [Add] + [] == [Add] && [Reset] + [Add] == [Reset, Add] && [Add] + [Reset, Add] == [Add, Reset, Add];
    Prepend(Turns(0, 0), Add, []);
    Prepend(Turns(1, 1), Reset, [Add]);
    Prepend(Turns(0, 1), Add, [Reset, Add]);
    assert Drawn(Turns(0, 1), [Add, Reset, Add]) == [0] + ([] + ([0] + [])) == [0, 0];
    assert [Reset] + [Add, Reset, Add] == [Reset, Add, Reset, Add];
    Prepend(Turns(0, 2), Reset, [Add, Reset, Add]);
    assert [Add] + [Reset, Add, Reset, Add] == [Add, Reset, Add, Reset, Add];
    Prepend(Turns(USIZE_MAX, 1), Add, [Reset, Add, Reset, Add]);
    assert [Add] + [Add, Reset, Add, Reset, Add] == [Add, Add, Reset, Add, Reset, Add];
    Prepend(Turns(USIZE_MAX - 1, 0), Add, [Add, Reset, Add, Reset, Add]);
  }

  lemma NoSteps(c: Turns)
    ensures Runs(c, []) && Drawn(c, []) == []
  {
  }

  lemma Prepend(c: Turns, st: Step, steps: seq<Step>)
    requires Can(c, st) && Runs(Next(c, st), steps)
    ensures Runs(c, [st] + steps)
    ensures Drawn(c, [st] + steps) == (if st.Add? then [c.ptr] else []) + Drawn(Next(c, st), steps)
  {
    assert ([st] + steps)[1..] == steps;
  }

  class RoundRobin {
    var ptr: nat

    ghost predicate Valid()
      reads this
    {
      ptr < USIZE_MAX
    }

    constructor ()
      ensures Valid() && ptr == 0
    {
      ptr := 0;
    }

    /** The two atomic operations of one call. When no other caller comes between them, the counter is
        reset before it could wrap around. */
    method FetchAndAdvance() returns (prev: nat)
      requires Valid()
      modifies this
      ensures Valid() && prev == old(ptr) && ptr == Following(old(ptr))
      ensures Leads(Turns(old(ptr), 0), LoneSteps(old(ptr)), Turns(ptr, 0))
    {
      LoneLeads(ptr);
      prev := ptr;
      ptr := Incremented(ptr);
      if prev >= USIZE_MAX - 1 {
        ptr := 0;
      }
    }

    method GetPtr(counted: seq<Health>, scanned: seq<Health>) returns (i: nat)
      requires Valid() && |counted| == |scanned|
      modifies this
      ensures Valid() && i == Pick(counted, scanned, old(ptr)) && ptr == Following(old(ptr))
    {
      var count := FetchAndAdvance();
      i := Pick(counted, scanned, count);
    }
  }
}
