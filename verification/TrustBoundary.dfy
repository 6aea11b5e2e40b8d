/** `reduce_trusted_proxy_chain`: keep the trusted suffix of a forwarding chain together with the last
    hop in front of it that is not trusted. */
module TrustBoundary {
  import opened IpText
  import opened Forwarded

  /** The configured networks, as the set of canonical addresses they contain. */
  type Trust = Ip -> bool

  predicate IsTrusted(trust: Trust, ip: Ip) {
    trust(Canonical(ip))
  }

  /** A hop without an IP address is never trusted. */
  predicate Trusted(trust: Trust, e: Entry) {
    e.node.ip.Some? && IsTrusted(trust, e.node.ip.value)
  }

  /** Every hop of `s` but the first is trusted. */
  predicate TrustedBehind(trust: Trust, s: Chain) {
    forall i | 1 <= i < |s| :: Trusted(trust, s[i])
  }

  predicate IsSuffix(s: Chain, chain: Chain) {
    |s| <= |chain| && s == chain[|chain| - |s|..]
  }

  /** `r` is the longest suffix of `chain` behind whose first hop everything is trusted. */
  ghost predicate IsReduction(trust: Trust, chain: Chain, r: Chain) {
    && IsSuffix(r, chain) && TrustedBehind(trust, r)
    && forall s | IsSuffix(s, chain) && TrustedBehind(trust, s) :: |s| <= |r|
  }

  /** The part of `chain` in front of its trusted suffix is `chain[..Trusting(chain)]`. */
  function Trusting(trust: Trust, chain: Chain): (n: nat)
    ensures n <= |chain|
  {
    if chain != [] && Trusted(trust, chain[|chain| - 1]) then Trusting(trust, chain[..|chain| - 1]) else |chain|
  }

  function Reduce(trust: Trust, chain: Chain): Chain {
    var n := Trusting(trust, chain);
    if n == 0 then chain else chain[n - 1..]
  }

  lemma {:induction false} TrustingSplits(trust: Trust, chain: Chain)
    ensures forall i | Trusting(trust, chain) <= i < |chain| :: Trusted(trust, chain[i])
    ensures Trusting(trust, chain) > 0 ==> !Trusted(trust, chain[Trusting(trust, chain) - 1])
  {
    if chain != [] && Trusted(trust, chain[|chain| - 1]) {
      TrustingSplits(trust, chain[..|chain| - 1]);
    }
  }

  method ReduceTrustedProxyChain(trust: Trust, chain: Chain) returns (r: Chain)
    ensures r == Reduce(trust, chain)
  {
    var i := |chain|;
    assert chain[..i] == chain;
    while i > 0 && Trusted(trust, chain[i - 1])
      invariant 0 <= i <= |chain|
      invariant Trusting(trust, chain) == Trusting(trust, chain[..i])
    {
      assert chain[..i][..i - 1] == chain[..i - 1];
      i := i - 1;
    }
    r := if i == 0 then chain else chain[i - 1..];
  }

  /** The reduction is the longest such suffix, and is not empty unless the chain is. */
  lemma ReduceIsLongest(trust: Trust, chain: Chain)
    ensures IsReduction(trust, chain, Reduce(trust, chain))
    ensures chain != [] ==> Reduce(trust, chain) != []
  {
    TrustingSplits(trust, chain);
    var n, r := Trusting(trust, chain), Reduce(trust, chain);
    assert n > 0 ==> forall i | 1 <= i < |r| :: r[i] == chain[n - 1 + i];
    forall s | IsSuffix(s, chain) && |s| > |r|
      ensures !TrustedBehind(trust, s)
    {
      assert s[|s| - |r|] == chain[n - 1];
    }
  }

  lemma ReductionIsUnique(trust: Trust, chain: Chain, r: Chain)
    requires IsReduction(trust, chain, r)
    ensures r == Reduce(trust, chain)
  {
    ReduceIsLongest(trust, chain);
  }

  /** Reducing again changes nothing. */
  lemma ReduceIsIdempotent(trust: Trust, chain: Chain)
    ensures Reduce(trust, Reduce(trust, chain)) == Reduce(trust, chain)
  {
    var r := Reduce(trust, chain);
    ReduceIsLongest(trust, chain);
    assert IsSuffix(r, r);
    assert IsReduction(trust, r, r);
    ReductionIsUnique(trust, r, r);
  }

  /** What stands to the left is irrelevant exactly when some hop of `chain` is not trusted. */
  lemma LeftOfBoundaryIsIrrelevant(trust: Trust, left: Chain, chain: Chain)
    requires left != []
    ensures Reduce(trust, left + chain) == Reduce(trust, chain) <==>
              exists i :: 0 <= i < |chain| && !Trusted(trust, chain[i])
  {
    hide Trusting, Trusted;
    var all := left + chain;
    TrustingSplits(trust, all);
    TrustingSplits(trust, chain);
    var n, m := Trusting(trust, all), Trusting(trust, chain);
    assert forall i | 0 <= i < |chain| :: all[|left| + i] == chain[i];
    if m > 0 {
      assert !Trusted(trust, all[|left| + m - 1]);
      if n > |left| {
        assert !Trusted(trust, chain[n - |left| - 1]);
      }
      assert n == |left| + m;
      assert all[n - 1..] == chain[m - 1..];
    } else {
      assert forall j | |left| <= j < |all| :: all[j] == chain[j - |left|] && Trusted(trust, all[j]);
      assert n <= |left| && |Reduce(trust, all)| > |chain|;
    }
  }

  lemma TrustingIs(trust: Trust, chain: Chain, n: nat)
    requires n <= |chain| && (forall i | n <= i < |chain| :: Trusted(trust, chain[i]))
    requires n > 0 ==> !Trusted(trust, chain[n - 1])
    ensures Trusting(trust, chain) == n
  {
    hide Trusting, Trusted;
    TrustingSplits(trust, chain);
  }

  /** The configured networks hold the canonical address of the hop. */
  predicate InNetworks(trust: Trust, e: Entry) {
    e.node.ip.Some? && trust(Canonical(e.node.ip.value))
  }

  /** The last hop outside the networks, or without an address, is the boundary: everything in front of it goes.
      Without such a hop the whole chain stays. */
  lemma ReduceExactly(trust: Trust, left: Chain, boundary: Entry, right: Chain)
    requires forall i | 0 <= i < |right| :: InNetworks(trust, right[i])
    ensures !InNetworks(trust, boundary) ==> Reduce(trust, left + [boundary] + right) == [boundary] + right
    ensures Reduce(trust, right) == right
  {
    hide Trusting;
    var all, n := left + [boundary] + right, |left| + 1;
    TrustingIs(trust, right, 0);
    if !InNetworks(trust, boundary) {
      assert all[n - 1] == boundary;
      forall i | n <= i < |all|
        ensures Trusted(trust, all[i])
      {
        assert all[i] == right[i - n];
      }
      TrustingIs(trust, all, n);
      assert all[n - 1..] == [boundary] + right;
    }
  }
}
