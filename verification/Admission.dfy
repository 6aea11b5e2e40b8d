/** The global connection limit (`RequestCount`, `serve_connection`) as a machine whose steps are the
    single atomic operations of many tasks. */
module Admission {
  import opened Machine

  type Tid = nat

  type Positive = x: nat | x > 0 witness 1

  /** Where a connection task stands between its increment and the end of its decrement. */
  datatype Phase =
    | Checking(prev: nat)                 // the increment returned `prev`
    | Serving                             // admitted
    | Loading                             // rejected or finished: about to load the counter
    | Exchanging(count: Positive)         // loaded `count`: about to compare and exchange

  datatype State = State(max: nat, counter: nat, tasks: map<Tid, Phase>)

  datatype Action = Arrive(t: Tid) | Check(t: Tid) | Finish(t: Tid) | Load(t: Tid) | Exchange(t: Tid)

  /** `fetch_add` wraps around. */
  function Increment(n: nat): nat {
    (n + 1) % (USIZE_MAX + 1)
  }

  function Init(max: nat): State {
    State(max, 0, map[])
  }

  /** A fresh task arrives while fewer tasks than a `usize` can count are under way. */
  predicate Enabled(s: State, a: Action) {
    match a
    case Arrive(t) => t !in s.tasks && |s.tasks| < USIZE_MAX
    case Check(t) => t in s.tasks && s.tasks[t].Checking?
    case Finish(t) => t in s.tasks && s.tasks[t].Serving?
    case Load(t) => t in s.tasks && s.tasks[t].Loading?
    case Exchange(t) => t in s.tasks && s.tasks[t].Exchanging?
  }

  function Apply(s: State, a: Action): State
    requires Enabled(s, a)
  {
    match a
    case Arrive(t) => s.(counter := Increment(s.counter), tasks := s.tasks[t := Checking(s.counter)])
    case Check(t) => s.(tasks := s.tasks[t := if s.tasks[t].prev >= s.max then Loading else Serving])
    case Finish(t) => s.(tasks := s.tasks[t := Loading])
    case Load(t) =>
      if s.counter > 0 then s.(tasks := s.tasks[t := Exchanging(s.counter)])
      else s.(tasks := s.tasks - {t})     // the guard against going below zero
    case Exchange(t) =>
      if s.counter == s.tasks[t].count then s.(counter := s.counter - 1, tasks := s.tasks - {t})
      else s.(tasks := s.tasks[t := Loading])
  }

  ghost predicate Runs(s: State, actions: seq<Action>, s': State)
    decreases |actions|
  {
    if actions == [] then s == s'
    else Enabled(s, actions[0]) && Runs(Apply(s, actions[0]), actions[1..], s')
  }

  ghost predicate Reachable(max: nat, s: State) {
    exists actions :: Runs(Init(max), actions, s)
  }

  /* ------------------------------------ invariant ------------------------------------ */

  /** The tasks that are or will be admitted. */
  predicate Wins(s: State, t: Tid) {
    t in s.tasks && (s.tasks[t].Serving? || (s.tasks[t].Checking? && s.tasks[t].prev < s.max))
  }

  function Winners(s: State): set<Tid> {
    set t | t in s.tasks && Wins(s, t)
  }

  function Served(s: State): set<Tid> {
    set t | t in s.tasks && s.tasks[t].Serving?
  }

  /** Each task under way accounts for exactly one unit of the counter. */
  predicate Inv(s: State) {
    && s.counter == |s.tasks| <= USIZE_MAX
    && |Winners(s)| <= s.max
  }

  lemma SubsetSize<T>(a: set<T>, b: set<T>)
    requires a <= b
    ensures |a| <= |b|
  {
    if a != {} {
      var x :| x in a;
      SubsetSize(a - {x}, b - {x});
    }
  }

  lemma TaskCounts(s: State, t: Tid, p: Phase)
    requires t in s.tasks
    ensures |s.tasks| > 0 && |s.tasks - {t}| == |s.tasks| - 1 && |s.tasks[t := p]| == |s.tasks|
  {
  }

  lemma NoWrap(n: nat)
    ensures n < USIZE_MAX ==> Increment(n) == n + 1
  {
  }

  lemma ArriveKeepsInv(s: State, t: Tid)
    requires Inv(s) && Enabled(s, Arrive(t))
    ensures Inv(Apply(s, Arrive(t)))
  {
    hide Increment;
    NoWrap(s.counter);
    var s' := Apply(s, Arrive(t));
    assert s'.tasks.Keys == s.tasks.Keys + {t};
    SubsetSize(Winners(s), s.tasks.Keys);
    if s.counter < s.max {
      assert Winners(s') == Winners(s) + {t};
    } else {
      assert Winners(s') == Winners(s);
    }
  }

  lemma StepKeepsInv(s: State, a: Action)
    requires Inv(s) && Enabled(s, a)
    ensures Inv(Apply(s, a)) && Apply(s, a).max == s.max
  {
    if a.Arrive? {
      ArriveKeepsInv(s, a.t);
    } else {
      var s' := Apply(s, a);
      TaskCounts(s, a.t, if a.t in s'.tasks then s'.tasks[a.t] else Loading);
      assert Winners(s') <= Winners(s);
      SubsetSize(Winners(s'), Winners(s));
    }
  }

  lemma {:induction false} RunKeepsInv(s: State, actions: seq<Action>, s': State)
    requires Inv(s) && Runs(s, actions, s')
    ensures Inv(s') && s'.max == s.max
    decreases |actions|
  {
    if actions != [] {
      StepKeepsInv(s, actions[0]);
      RunKeepsInv(Apply(s, actions[0]), actions[1..], s');
    }
  }

  lemma ReachableInv(max: nat, s: State)
    requires Reachable(max, s)
    ensures Inv(s) && s.max == max
  {
    var actions :| Runs(Init(max), actions, s);
    assert Winners(Init(max)) == {};
    RunKeepsInv(Init(max), actions, s);
  }

  /* ------------------------------------ theorems ------------------------------------ */

  /** In every interleaving at most `max` connections are served at once. */
  lemma AtMostMaxServed(max: nat, s: State)
    requires Reachable(max, s)
    ensures |Served(s)| <= max
  {
    ReachableInv(max, s);
    assert Served(s) <= Winners(s);
    SubsetSize(Served(s), Winners(s));
  }

  lemma {:induction false} StillChecking(s: State, t: Tid, actions: seq<Action>, s': State)
    requires t in s.tasks && Runs(s, actions, s') && forall i | 0 <= i < |actions| :: actions[i].t != t
    ensures t in s'.tasks && s'.tasks[t] == s.tasks[t] && s'.max == s.max
    decreases |actions|
  {
    if actions != [] {
      StillChecking(Apply(s, actions[0]), t, actions[1..], s');
    }
  }

  /** Whatever the other tasks do in between, a connection is served if and only if fewer than `max` tasks were
      under way when it arrived. */
  lemma AdmittedExactly(max: nat, s: State, t: Tid, actions: seq<Action>, s': State)
    requires Reachable(max, s) && Enabled(s, Arrive(t)) && Runs(Apply(s, Arrive(t)), actions, s')
    requires forall i | 0 <= i < |actions| :: actions[i].t != t
    ensures Enabled(s', Check(t))
    ensures Apply(s', Check(t)).tasks[t] == if |s.tasks| < max then Serving else Loading
  {
    ReachableInv(max, s);
    StillChecking(Apply(s, Arrive(t)), t, actions, s');
  }

  /** The counter is exactly the number of tasks under way, so it is 0 again when all have ended. */
  lemma CounterIsExact(max: nat, s: State)
    requires Reachable(max, s)
    ensures s.counter == |s.tasks|
    ensures s.tasks == map[] <==> s.counter == 0
  {
    ReachableInv(max, s);
  }

  /** The guard against decrementing zero never fires, and no increment ever wraps around. */
  lemma GuardsNeverNeeded(max: nat, s: State, a: Action)
    requires Reachable(max, s) && Enabled(s, a)
    ensures a.Load? ==> s.counter > 0
    ensures a.Arrive? ==> s.counter < USIZE_MAX && Apply(s, a).counter == s.counter + 1
  {
    ReachableInv(max, s);
    if a.Load? {
      TaskCounts(s, a.t, Loading);
    }
  }

  /** A task under way is never stuck: left alone, its decrement ends in two steps. */
  lemma DecrementEnds(max: nat, s: State, t: Tid)
    requires Reachable(max, s) && Enabled(s, Load(t))
    ensures var s1 := Apply(s, Load(t));
            && Enabled(s1, Exchange(t))
            && Apply(s1, Exchange(t)) == s.(counter := s.counter - 1, tasks := s.tasks - {t})
  {
    ReachableInv(max, s);
    TaskCounts(s, t, Loading);
    assert s.tasks[t := Exchanging(s.counter)] - {t} == s.tasks - {t};
  }

  /** The step moves the counter: a task arrives, or an exchange succeeds and its task ends. */
  predicate Progresses(s: State, a: Action) {
    a.Arrive? || (a.Exchange? && Enabled(s, a) && s.counter == s.tasks[a.t].count)
  }

  lemma NoProgressKeepsCounter(s: State, a: Action)
    requires Enabled(s, a) && !Progresses(s, a)
    ensures Apply(s, a).counter == s.counter
  {
  }

  /** An exchange fails only if, after this task loaded the counter, another task arrived or ended: the
      tasks cannot fail one another for ever. */
  lemma {:induction false} FailedExchangeMeansProgress(s: State, t: Tid, actions: seq<Action>, s': State)
    returns (i: nat, mid: State)
    requires Inv(s) && Runs(s, actions, s') && t in s.tasks && t in s'.tasks
    requires s.tasks[t].Exchanging? && s'.tasks[t].Exchanging? && s.counter == s.tasks[t].count
    requires s'.counter != s'.tasks[t].count
    requires forall i | 0 <= i < |actions| :: actions[i].t != t
    ensures i < |actions| && Runs(s, actions[..i], mid) && Enabled(mid, actions[i]) && Progresses(mid, actions[i])
    decreases |actions|
  {
    var a := actions[0];
    if Progresses(s, a) {
      i, mid := 0, s;
    } else {
      StepKeepsInv(s, a);
      NoProgressKeepsCounter(s, a);
      var k, m := FailedExchangeMeansProgress(Apply(s, a), t, actions[1..], s');
      i, mid := k + 1, m;
      assert actions[..i][1..] == actions[1..][..k] && actions[i] == actions[1..][k];
    }
  }
}
