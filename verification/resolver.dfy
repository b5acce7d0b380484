/**
  The resolution engine: for each domain, a CNAME check, an optional filter
  gate, an address lookup, and the single-address acceptance policy; then the
  batch step that gathers one result per domain and drops CNAME-filtered ones.

  The host's lookups and clock are not called here: what they returned for a
  domain is an `Observation` given as input. The batch step runs its workers
  concurrently and collects results in completion order; that order is the
  input `arrival`, any permutation of the domain indices, so every property of
  `ResolveMultiple` holds for every scheduling.
 */
module Resolver {
  import opened Answers

  /**
    One address from the address lookup, as the address library renders it:
    `native` is its own textual form, `v4` the textual form of its 4-byte
    conversion when that conversion exists (an IPv4 or IPv4-mapped address).
   */
  datatype Address = Address(native: string, v4: Option<string>)

  /** What the host reported for one domain: the CNAME lookup, the address lookup, and the completion time. */
  datatype Observation = Observation(cname: Answer<string>, addresses: Answer<seq<Address>>, timestamp: string)

  /** The record produced for one domain. */
  datatype Result = Result(domain: string, ip: string, timestamp: string, error: string, hasCNAME: bool)

  /** What the per-domain resolution step returns: the CNAME flag, and the address text or the error text. */
  datatype Resolution = Resolution(hasCNAME: bool, ip: Answer<string>)

  /**
    The engine's read-only configuration. `threads` caps the workers in flight
    and, when positive, plays no part in the results. A negative count makes
    the Go tool panic when it creates the semaphore, for any batch; zero makes
    it end in Go's deadlock error once there is a domain. Neither is modelled.
   */
  datatype Resolver = Resolver(threads: int, filterCNAME: bool)

  /**
    The domain has an alias: the CNAME lookup succeeded and the canonical name is
    not the domain followed by the root dot. The comparison is exact.
   */
  predicate HasCNAME(domain: string, cname: Answer<string>)
  {
    cname.Ok? && cname.value != domain + "."
  }

  function CNAMEFilteredError(domain: string, cname: string): string
  {
    "域名 " + domain + " 存在CNAME记录: " + cname
  }

  function AmbiguousError(domain: string): string
  {
    "域名 " + domain + " 有多个IP地址或无IP地址"
  }

  /** The text reported for an accepted address: the IPv4 form when there is one. */
  function AddressText(a: Address): string
  {
    if a.v4.Some? then a.v4.value else a.native
  }

  /** The filter gate is closed for this domain. */
  predicate Filtered(filterCNAME: bool, domain: string, cname: Answer<string>)
  {
    filterCNAME && HasCNAME(domain, cname)
  }

  /** Resolution of one domain from the two lookup outcomes. */
  function Resolve(filterCNAME: bool, domain: string, cname: Answer<string>, addresses: Answer<seq<Address>>): (r: Resolution)
    ensures r.hasCNAME == HasCNAME(domain, cname)
    ensures r.ip.Ok? <==> !Filtered(filterCNAME, domain, cname) && addresses.Ok? && |addresses.value| == 1
    ensures r.ip.Ok? ==> r.ip.value == AddressText(addresses.value[0])
    ensures Filtered(filterCNAME, domain, cname) ==> r.ip == Err(CNAMEFilteredError(domain, cname.value))
    ensures !Filtered(filterCNAME, domain, cname) && addresses.Err? ==> r.ip == Err(addresses.message)
    ensures !Filtered(filterCNAME, domain, cname) && addresses.Ok? && |addresses.value| != 1
            ==> r.ip == Err(AmbiguousError(domain))
  {
    var hasCNAME := HasCNAME(domain, cname);
    if filterCNAME && hasCNAME then
      Resolution(hasCNAME, Err(CNAMEFilteredError(domain, cname.value)))
    else
      match addresses
      case Err(message) => Resolution(hasCNAME, Err(message))
      case Ok(ips) =>
        if |ips| != 1 then Resolution(hasCNAME, Err(AmbiguousError(domain)))
        else Resolution(hasCNAME, Ok(AddressText(ips[0])))
  }

  /** The record for one domain: the domain, the time, the CNAME flag, and either the address or the error. */
  function ResolveSingle(filterCNAME: bool, domain: string, obs: Observation): (res: Result)
    ensures res.domain == domain
    ensures res.timestamp == obs.timestamp
    ensures res.hasCNAME == HasCNAME(domain, obs.cname)
    ensures var r := Resolve(filterCNAME, domain, obs.cname, obs.addresses);
            && (r.ip.Ok? ==> res.ip == r.ip.value && res.error == "")
            && (r.ip.Err? ==> res.ip == "" && res.error == r.ip.message)
  {
    var r := Resolve(filterCNAME, domain, obs.cname, obs.addresses);
    var base := Result(domain, "", obs.timestamp, "", r.hasCNAME);
    match r.ip
    case Err(message) => base.(error := message)
    case Ok(text) => base.(ip := text)
  }

  /** Exactly one of the address and the error is non-empty. */
  predicate Settled(res: Result)
  {
    (res.ip != "") != (res.error != "")
  }

  /** The host never hands back empty texts: failed lookups have a message, addresses have a rendering. */
  predicate HostTextsNonEmpty(obs: Observation)
  {
    match obs.addresses
    case Err(message) => message != ""
    case Ok(ips) => forall i :: 0 <= i < |ips| ==> AddressText(ips[i]) != ""
  }

  /** Every record of a single resolution is settled, provided the host's texts are non-empty. */
  lemma ResolveSingleSettled(filterCNAME: bool, domain: string, obs: Observation)
    requires HostTextsNonEmpty(obs)
    ensures Settled(ResolveSingle(filterCNAME, domain, obs))
  {
    var r := Resolve(filterCNAME, domain, obs.cname, obs.addresses);
    if r.ip.Ok? {
      assert obs.addresses.Ok? && |obs.addresses.value| == 1;
      assert AddressText(obs.addresses.value[0]) != "";
    }
  }

  /** Exactly one address and no closed filter gate is the only way to succeed. */
  lemma SucceedsIffSingleAddress(filterCNAME: bool, domain: string, obs: Observation)
    requires HostTextsNonEmpty(obs)
    ensures var res := ResolveSingle(filterCNAME, domain, obs);
            res.error == "" <==> !Filtered(filterCNAME, domain, obs.cname)
                                 && obs.addresses.Ok? && |obs.addresses.value| == 1
  {
  }

  /**
    With the filter on and an alias present, the result is the filter error and
    does not depend on the address lookup: that lookup is never consulted.
   */
  lemma FilterSkipsAddressLookup(domain: string, obs: Observation, other: Answer<seq<Address>>)
    requires Filtered(true, domain, obs.cname)
    ensures ResolveSingle(true, domain, obs) == ResolveSingle(true, domain, obs.(addresses := other))
    ensures ResolveSingle(true, domain, obs).ip == ""
    ensures ResolveSingle(true, domain, obs).error == CNAMEFilteredError(domain, obs.cname.value)
  {
  }

  /**
    The alias test is an exact string comparison: a canonical name equal to the
    domain but without the root dot counts as an alias, and so does any answer
    for a domain that was itself written with the root dot.
   */
  lemma HasCNAMEIsExact(domain: string)
    ensures HasCNAME(domain, Ok(domain))
    ensures HasCNAME(domain + ".", Ok(domain + "."))
    ensures !HasCNAME(domain, Ok(domain + "."))
    ensures forall message :: !HasCNAME(domain, Err(message))
  {
    assert |domain + "."| != |domain|;
    assert |domain + "." + "."| != |domain + "."|;
  }

  /** The indices 0 .. n-1 in order. */
  function Range(n: nat): (r: seq<nat>)
    ensures |r| == n
    ensures forall i :: 0 <= i < n ==> r[i] == i
  {
    seq(n, i => i)
  }

  /** Every entry of `idx` is an index below `n`. */
  predicate IndicesBelow(idx: seq<nat>, n: nat)
  {
    forall k :: 0 <= k < |idx| ==> idx[k] < n
  }

  /** `arrival` lists every index below `n` exactly once: an order in which the workers can finish. */
  predicate IsArrivalOrder(arrival: seq<nat>, n: nat)
  {
    && IndicesBelow(arrival, n)
    && multiset(arrival) == multiset(Range(n))
  }

  /** The record each worker produces, indexed as the input. */
  function ResolveEach(filterCNAME: bool, domains: seq<string>, obs: seq<Observation>): (rs: seq<Result>)
    requires |obs| == |domains|
    ensures |rs| == |domains|
    ensures forall i :: 0 <= i < |domains| ==> rs[i] == ResolveSingle(filterCNAME, domains[i], obs[i])
  {
    seq(|domains|, i requires 0 <= i < |domains| => ResolveSingle(filterCNAME, domains[i], obs[i]))
  }

  /** The entries of `rs` at the given indices, in that order. */
  function Pick<T>(rs: seq<T>, idx: seq<nat>): (picked: seq<T>)
    requires IndicesBelow(idx, |rs|)
    ensures |picked| == |idx|
    ensures forall k :: 0 <= k < |idx| ==> picked[k] == rs[idx[k]]
  {
    seq(|idx|, k requires 0 <= k < |idx| => rs[idx[k]])
  }

  /** The record is dropped by the collector. */
  predicate Dropped(filterCNAME: bool, res: Result)
  {
    filterCNAME && res.hasCNAME
  }

  /** The collector: keeps the delivered records in delivery order, skipping dropped ones. */
  function Collect(filterCNAME: bool, delivered: seq<Result>): (kept: seq<Result>)
    ensures |kept| <= |delivered|
    ensures forall k :: 0 <= k < |kept| ==> kept[k] in delivered && !Dropped(filterCNAME, kept[k])
    ensures !filterCNAME ==> kept == delivered
  {
    if delivered == [] then []
    else (if Dropped(filterCNAME, delivered[0]) then [] else [delivered[0]])
         + Collect(filterCNAME, delivered[1..])
  }

  /**
    Batch resolution with the workers finishing in the order `arrival`.
    With the filter off every domain yields a record; with it on, no record
    with an alias survives.
   */
  function ResolveMultiple(r: Resolver, domains: seq<string>, obs: seq<Observation>, arrival: seq<nat>): (results: seq<Result>)
    requires |obs| == |domains|
    requires IsArrivalOrder(arrival, |domains|)
    ensures !r.filterCNAME ==> |results| == |domains|
    ensures r.filterCNAME ==> forall k :: 0 <= k < |results| ==> !results[k].hasCNAME
    ensures forall k :: 0 <= k < |results| ==> results[k].domain in domains
  {
    assert |arrival| == |multiset(arrival)| == |multiset(Range(|domains|))| == |domains|;
    var produced := ResolveEach(r.filterCNAME, domains, obs);
    Collect(r.filterCNAME, Pick(produced, arrival))
  }

  /** The sequential reference: resolve the domains in input order, then collect. */
  function ResolveInOrder(r: Resolver, domains: seq<string>, obs: seq<Observation>): seq<Result>
    requires |obs| == |domains|
  {
    Collect(r.filterCNAME, ResolveEach(r.filterCNAME, domains, obs))
  }

  lemma CollectCons(filterCNAME: bool, delivered: seq<Result>)
    requires delivered != []
    ensures multiset(Collect(filterCNAME, delivered))
            == multiset(if Dropped(filterCNAME, delivered[0]) then [] else [delivered[0]])
               + multiset(Collect(filterCNAME, delivered[1..]))
  {
  }

  lemma MultisetCons(s: seq<Result>, x: Result)
    requires s != []
    ensures multiset(s)[x] == multiset([s[0]])[x] + multiset(s[1..])[x]
  {
    assert s == [s[0]] + s[1..];
  }

  lemma {:induction false} CollectCounts(filterCNAME: bool, delivered: seq<Result>, x: Result)
    ensures multiset(Collect(filterCNAME, delivered))[x]
            == if Dropped(filterCNAME, x) then 0 else multiset(delivered)[x]
    decreases |delivered|
  {
    if delivered != [] {
      CollectCounts(filterCNAME, delivered[1..], x);
      CollectCons(filterCNAME, delivered);
      MultisetCons(delivered, x);
    }
  }

  /** Collecting two deliveries with the same records gives the same records. */
  lemma CollectPermutes(filterCNAME: bool, a: seq<Result>, b: seq<Result>)
    requires multiset(a) == multiset(b)
    ensures multiset(Collect(filterCNAME, a)) == multiset(Collect(filterCNAME, b))
  {
    forall x
      ensures multiset(Collect(filterCNAME, a))[x] == multiset(Collect(filterCNAME, b))[x]
    {
      CollectCounts(filterCNAME, a, x);
      CollectCounts(filterCNAME, b, x);
    }
  }

  lemma PickAppend<T>(rs: seq<T>, u: seq<nat>, v: seq<nat>)
    requires IndicesBelow(u, |rs|)
    requires IndicesBelow(v, |rs|)
    ensures IndicesBelow(u + v, |rs|)
    ensures Pick(rs, u + v) == Pick(rs, u) + Pick(rs, v)
  {
  }

  /** Removing one occurrence of the same value from two sequences with equal multisets keeps them equal. */
  lemma MultisetRemoveAt<T>(a: seq<T>, b: seq<T>, j: nat)
    requires multiset(a) == multiset(b)
    requires a != [] && j < |b| && b[j] == a[0]
    ensures multiset(a[1..]) == multiset(b[..j] + b[j + 1..])
  {
    var x := a[0];
    assert b == b[..j] + [x] + b[j + 1..];
    assert a == [x] + a[1..];
    assert multiset(a[1..]) == multiset(a) - multiset([x]);
    assert multiset(b[..j] + b[j + 1..]) == multiset(b) - multiset([x]);
  }

  /** Picking by `b` gives the entry at `b[j]` plus what picking by `b` without position `j` gives. */
  lemma PickRemoveAt<T>(rs: seq<T>, b: seq<nat>, j: nat)
    requires IndicesBelow(b, |rs|)
    requires j < |b|
    ensures IndicesBelow(b[..j] + b[j + 1..], |rs|)
    ensures multiset(Pick(rs, b)) == multiset([rs[b[j]]]) + multiset(Pick(rs, b[..j] + b[j + 1..]))
  {
    var left, right := b[..j], b[j + 1..];
    assert b == left + [b[j]] + right;
    PickAppend(rs, left, right);
    PickAppend(rs, left, [b[j]]);
    PickAppend(rs, left + [b[j]], right);
    assert Pick(rs, b) == Pick(rs, left) + [rs[b[j]]] + Pick(rs, right);
  }

  /** Picking by two orderings of the same indices gives the same entries. */
  lemma {:induction false} PickPermutes<T>(rs: seq<T>, a: seq<nat>, b: seq<nat>)
    requires IndicesBelow(a, |rs|)
    requires IndicesBelow(b, |rs|)
    requires multiset(a) == multiset(b)
    ensures multiset(Pick(rs, a)) == multiset(Pick(rs, b))
    decreases |a|
  {
    if a == [] {
      assert |b| == |multiset(b)| == 0;
    } else {
      var x := a[0];
      assert x in multiset(a);
      assert x in multiset(b);
      var j :| 0 <= j < |b| && b[j] == x;
      MultisetRemoveAt(a, b, j);
      PickRemoveAt(rs, b, j);
      PickPermutes(rs, a[1..], b[..j] + b[j + 1..]);
      assert Pick(rs, a) == [rs[x]] + Pick(rs, a[1..]);
    }
  }

  /**
    Whatever order the workers finish in, the batch holds exactly the records of
    the sequential reference, each as many times: the output is specified only
    up to permutation.
   */
  lemma ResolveMultipleIsPermutation(r: Resolver, domains: seq<string>, obs: seq<Observation>, arrival: seq<nat>)
    requires |obs| == |domains|
    requires IsArrivalOrder(arrival, |domains|)
    ensures multiset(ResolveMultiple(r, domains, obs, arrival)) == multiset(ResolveInOrder(r, domains, obs))
  {
    var produced := ResolveEach(r.filterCNAME, domains, obs);
    var inOrder := Range(|domains|);
    PickPermutes(produced, arrival, inOrder);
    assert Pick(produced, inOrder) == produced;
    CollectPermutes(r.filterCNAME, Pick(produced, arrival), produced);
  }

  /** The number of domains the filter drops: those with an alias, when the filter is on. */
  function FilteredCount(filterCNAME: bool, domains: seq<string>, obs: seq<Observation>): (n: nat)
    requires |obs| == |domains|
  {
    if domains == [] then 0
    else (if Filtered(filterCNAME, domains[0], obs[0].cname) then 1 else 0)
         + FilteredCount(filterCNAME, domains[1..], obs[1..])
  }

  lemma {:induction false} ResolveInOrderCount(r: Resolver, domains: seq<string>, obs: seq<Observation>)
    requires |obs| == |domains|
    ensures |ResolveInOrder(r, domains, obs)| == |domains| - FilteredCount(r.filterCNAME, domains, obs)
    decreases |domains|
  {
    if domains != [] {
      var each := ResolveEach(r.filterCNAME, domains, obs);
      assert each[1..] == ResolveEach(r.filterCNAME, domains[1..], obs[1..]);
      ResolveInOrderCount(r, domains[1..], obs[1..]);
    }
  }

  /** One record per input domain, minus the ones the filter drops. */
  lemma ResolveMultipleCount(r: Resolver, domains: seq<string>, obs: seq<Observation>, arrival: seq<nat>)
    requires |obs| == |domains|
    requires IsArrivalOrder(arrival, |domains|)
    ensures |ResolveMultiple(r, domains, obs, arrival)| == |domains| - FilteredCount(r.filterCNAME, domains, obs)
  {
    ResolveMultipleIsPermutation(r, domains, obs, arrival);
    var out := ResolveMultiple(r, domains, obs, arrival);
    assert |out| == |multiset(out)| == |multiset(ResolveInOrder(r, domains, obs))|;
    ResolveInOrderCount(r, domains, obs);
  }

  /**
    A record is in the batch exactly when it is the single resolution of some
    input domain with its own observation and the filter does not drop it:
    domains are resolved independently of one another.
   */
  lemma ResolveMultipleMembers(r: Resolver, domains: seq<string>, obs: seq<Observation>, arrival: seq<nat>, x: Result)
    requires |obs| == |domains|
    requires IsArrivalOrder(arrival, |domains|)
    ensures x in ResolveMultiple(r, domains, obs, arrival)
            <==> !Dropped(r.filterCNAME, x)
                 && exists i :: 0 <= i < |domains| && x == ResolveSingle(r.filterCNAME, domains[i], obs[i])
  {
    var out := ResolveMultiple(r, domains, obs, arrival);
    var each := ResolveEach(r.filterCNAME, domains, obs);
    ResolveMultipleIsPermutation(r, domains, obs, arrival);
    CollectCounts(r.filterCNAME, each, x);
    assert x in out <==> multiset(out)[x] > 0;
    assert x in each <==> multiset(each)[x] > 0;
    if x in each {
      var i :| 0 <= i < |each| && each[i] == x;
      assert x == ResolveSingle(r.filterCNAME, domains[i], obs[i]);
    }
    if exists i :: 0 <= i < |domains| && x == ResolveSingle(r.filterCNAME, domains[i], obs[i]) {
      var i :| 0 <= i < |domains| && x == ResolveSingle(r.filterCNAME, domains[i], obs[i]);
      assert each[i] == x;
    }
  }
}
