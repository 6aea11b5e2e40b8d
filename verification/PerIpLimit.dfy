/** The per-address connection limit (`PerIpConnectionCount` and its guards). Every operation holds the
    mutex, so that an interleaving is a sequence of operations. */
module PerIpLimit {
  import opened Wrappers
  import opened Machine
  import opened IpText

  type Slots = map<Ip, nat>

  function Held(m: Slots, ip: Ip): nat {
    if ip in m then m[ip] else 0
  }

  /** `drop` on a counted address. */
  function Released(m: Slots, ip: Ip): Slots {
    if ip !in m then m
    else
      var left := if m[ip] == 0 then 0 else m[ip] - 1;
      if left == 0 then m - {ip} else m[ip := left]
  }

  /** The map counts exactly the live guards, stores no zero and never exceeds the cap. */
  ghost predicate Exact(m: Slots, live: multiset<Ip>, cap: nat) {
    && (forall ip :: Held(m, ip) == live[ip] <= cap)
    && (forall ip | ip in m :: m[ip] > 0)
  }

  datatype Event = Acquire(ip: Ip) | Drop(ip: Ip)

  datatype State = State(slots: Slots, live: multiset<Ip>)

  /** A guard is dropped once, while it is live. */
  predicate Enabled(s: State, e: Event) {
    e.Drop? ==> e.ip in s.live
  }

  function Apply(s: State, e: Event, cap: nat): State {
    match e
    case Acquire(ip) =>
      if Held(s.slots, ip) >= cap then s
      else State(s.slots[ip := Held(s.slots, ip) + 1], s.live + multiset{ip})
    case Drop(ip) => State(Released(s.slots, ip), s.live - multiset{ip})
  }

  ghost predicate Runs(s: State, events: seq<Event>, cap: nat, s': State)
    decreases |events|
  {
    if events == [] then s == s' else Enabled(s, events[0]) && Runs(Apply(s, events[0], cap), events[1..], cap, s')
  }

  lemma AcquireIsExact(s: State, ip: Ip, cap: nat)
    requires Exact(s.slots, s.live, cap)
    ensures var s' := Apply(s, Acquire(ip), cap); Exact(s'.slots, s'.live, cap)
    ensures Apply(s, Acquire(ip), cap).live == if s.live[ip] < cap then s.live + multiset{ip} else s.live
  {
    var s' := Apply(s, Acquire(ip), cap);
    assert Held(s.slots, ip) == s.live[ip];
    forall x
      ensures Held(s'.slots, x) == s'.live[x] <= cap
    {
      assert Held(s.slots, x) == s.live[x] <= cap;
    }
  }

  lemma DropIsExact(s: State, ip: Ip, cap: nat)
    requires Exact(s.slots, s.live, cap) && ip in s.live
    ensures var s' := Apply(s, Drop(ip), cap); Exact(s'.slots, s'.live, cap) && s'.live == s.live - multiset{ip}
    ensures ip in s.slots && s.slots[ip] >= 1
  {
    var s' := Apply(s, Drop(ip), cap);
    assert Held(s.slots, ip) == s.live[ip];
    forall x
      ensures Held(s'.slots, x) == s'.live[x] <= cap
    {
      assert Held(s.slots, x) == s.live[x] <= cap;
    }
  }

  lemma StepIsExact(s: State, e: Event, cap: nat)
    requires Exact(s.slots, s.live, cap) && Enabled(s, e)
    ensures var s' := Apply(s, e, cap); Exact(s'.slots, s'.live, cap)
    ensures e.Drop? ==> e.ip in s.slots && s.slots[e.ip] >= 1
    ensures Apply(s, e, cap).live == if e.Drop? then s.live - multiset{e.ip}
                                     else if s.live[e.ip] < cap then s.live + multiset{e.ip} else s.live
  {
    hide Exact, Apply;
    match e {
      case Acquire(ip) => AcquireIsExact(s, ip, cap);
      case Drop(ip) => DropIsExact(s, ip, cap);
    }
  }

  /** Over every sequence of acquisitions and drops. */
  lemma {:induction false} RunIsExact(s: State, events: seq<Event>, cap: nat, s': State)
    requires Exact(s.slots, s.live, cap) && Runs(s, events, cap, s')
    ensures Exact(s'.slots, s'.live, cap)
    decreases |events|
  {
    if events != [] {
      StepIsExact(s, events[0], cap);
      RunIsExact(Apply(s, events[0], cap), events[1..], cap, s');
    }
  }

  /** When the last guard is gone the map is empty. */
  lemma NothingLeftBehind(events: seq<Event>, cap: nat, s: State)
    requires Runs(State(map[], multiset{}), events, cap, s) && s.live == multiset{}
    ensures s.slots == map[]
  {
    RunIsExact(State(map[], multiset{}), events, cap, s);
    forall ip
      ensures ip !in s.slots
    {
      assert Held(s.slots, ip) == s.live[ip];
    }
  }

  datatype Guard = Guard(state: Option<Ip>)

  class PerIpConnectionCount {
    var slots: Slots
    const maxPerIp: nat
    ghost var live: multiset<Ip>

    ghost predicate Valid()
      reads this
    {
      Exact(slots, live, maxPerIp) && maxPerIp <= USIZE_MAX
    }

    constructor (maxPerIp: nat)
      requires maxPerIp <= USIZE_MAX
      ensures Valid() && this.maxPerIp == maxPerIp && live == multiset{} && slots == map[]
    {
      this.maxPerIp := maxPerIp;
      slots, live := map[], multiset{};
    }

    /** Refused exactly when the address already holds `maxPerIp` live guards; a cap of 0 is no cap. */
    method TryAcquire(ip: Ip) returns (r: Option<Guard>)
      requires Valid()
      modifies this
      ensures Valid()
      ensures maxPerIp == 0 ==> r == Some(Guard(None)) && slots == old(slots) && live == old(live)
      ensures maxPerIp > 0 ==>
                if old(live)[ip] == maxPerIp then r == None && slots == old(slots) && live == old(live)
                else r == Some(Guard(Some(ip))) && live == old(live) + multiset{ip}
    {
      assert Held(slots, ip) == live[ip];
      if maxPerIp == 0 {
        return Some(Guard(None));
      }
      StepIsExact(State(slots, live), Acquire(ip), maxPerIp);
      var count := Held(slots, ip);
      if count >= maxPerIp {
        return None;
      }
      slots := slots[ip := count + 1];
      live := live + multiset{ip};
      return Some(Guard(Some(ip)));
    }

    method Drop(g: Guard)
      requires Valid() && (g.state.Some? ==> g.state.value in live)
      modifies this
      ensures Valid()
      ensures live == if g.state.Some? then old(live) - multiset{g.state.value} else old(live)
    {
      if g.state.None? {
        return;
      }
      var ip := g.state.value;
      StepIsExact(State(slots, live), Event.Drop(ip), maxPerIp);
      live := live - multiset{ip};
      if ip in slots {
        var left := if slots[ip] == 0 then 0 else slots[ip] - 1;
        slots := slots[ip := left];
        if left == 0 {
          slots := slots - {ip};
        }
      }
      assert slots == Released(old(slots), ip);
    }
  }
}
