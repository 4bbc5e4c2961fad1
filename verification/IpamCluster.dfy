/**
  Runs of the allocator over a shared store by any number of hosts. Each operation is one atomic
  step on the string store; live lists the addresses handed out and not yet released, per host.
 */
module IpamCluster {
  import opened InetAddr
  import opened IpamRecord
  import opened IpamStore
  import opened IpamService
  import opened IpamRefinement

  datatype Op = InitOp(host: string) | UnusedOp(host: string) | ReleaseOp(host: string, ips: seq<string>)

  datatype System = System(kv: Store, live: seq<(string, string)>)

  function Dropped(live: seq<(string, string)>, host: string, ips: seq<string>): seq<(string, string)> {
    if live == [] then []
    else
      var rest := Dropped(live[..|live| - 1], host, ips);
      var last := live[|live| - 1];
      if last.0 == host && last.1 in ips then rest else rest + [last]
  }

  function Next(c: Config, s: System, op: Op): System {
    match op
    case InitOp(host) => System(InitKV(c, s.kv, host), s.live)
    case UnusedOp(host) => (
      match UnusedKV(c, s.kv, host)
      case None => s
      case Some(out) => System(out.1, s.live + [(host, out.0)])
    )
    case ReleaseOp(host, ips) => System(ReleaseKV(c, s.kv, host, ips), Dropped(s.live, host, ips))
  }

  function Run(c: Config, ops: seq<Op>): System {
    if ops == [] then System(map[], []) else Next(c, Run(c, ops[..|ops| - 1]), ops[|ops| - 1])
  }

  /** Every host name is legal and every call of UnusedIP returns. */
  ghost predicate Proper(c: Config, ops: seq<Op>) {
    ops == [] ||
    (Proper(c, ops[..|ops| - 1]) && ValidHost(ops[|ops| - 1].host)
     && (ops[|ops| - 1].UnusedOp? ==> UnusedKV(c, Run(c, ops[..|ops| - 1]).kv, ops[|ops| - 1].host).Some?))
  }

  /** The record and the network of a host as UnusedIP finds them. */
  function RecordSeen(c: Config, kv: Store, host: string): string {
    var kv1 := PathKV(c, kv, host);
    Read(kv1, RecordOf(c, kv1, host))
  }

  function NetworkSeen(c: Config, kv: Store, host: string): string {
    Read(PathKV(c, kv, host), HostKey(c, host))
  }

  /** The last address of the host's own /24 block is not recorded yet. */
  predicate HasRoom(c: Config, kv: Store, host: string) {
    InetInt2Ip(InetIP2Int(NetworkSeen(c, kv, host)) + 255) !in Entries(RecordSeen(c, kv, host))
  }

  /** No host asks for an address when its block is exhausted. */
  ghost predicate Guarded(c: Config, ops: seq<Op>) {
    ops == [] ||
    (Guarded(c, ops[..|ops| - 1]) && ValidHost(ops[|ops| - 1].host)
     && (ops[|ops| - 1].UnusedOp? ==> HasRoom(c, Run(c, ops[..|ops| - 1]).kv, ops[|ops| - 1].host)))
  }

  // ------------------------------------------------------- the abstract run

  function AbsNext(base: address, a: Abs, op: Op): Abs
    requires base % 256 == 0
  {
    match op
    case InitOp(host) => Init(a, host)
    case UnusedOp(host) => Unused(base, a, host)
    case ReleaseOp(host, ips) => Release(a, host, ips)
  }

  function AbsRun(base: address, ops: seq<Op>): Abs
    requires base % 256 == 0
  {
    if ops == [] then Abs([], true, map[]) else AbsNext(base, AbsRun(base, ops[..|ops| - 1]), ops[|ops| - 1])
  }

  /** The hosts in the order of their first operations. */
  function Seen(ops: seq<Op>): seq<string> {
    if ops == [] then []
    else
      var before := Seen(ops[..|ops| - 1]);
      var host := ops[|ops| - 1].host;
      if host in before then before else before + [host]
  }

  /** The place of a host in that order, or the next free one. */
  function RankOf(ops: seq<Op>, host: string): nat {
    if host in Seen(ops) then Rank(Seen(ops), host) else |Seen(ops)|
  }

  /** The live addresses of one host, in the order in which it got them. */
  function LiveOf(live: seq<(string, string)>, host: string): seq<string> {
    if live == [] then []
    else
      var rest := LiveOf(live[..|live| - 1], host);
      var last := live[|live| - 1];
      if last.0 == host then rest + [last.1] else rest
  }

  /** The recorded values that are addresses and not skipped .0 or .1 markers. */
  function Usables(values: seq<address>): seq<address> {
    if values == [] then []
    else
      var rest := Usables(values[..|values| - 1]);
      var v := values[|values| - 1];
      if v % 256 >= 2 then rest + [v] else rest
  }

  function Values(a: Abs, host: string): seq<address> {
    if host in a.recs then a.recs[host] else []
  }

  /** What every run keeps: increasing records that hold exactly the live addresses and markers. */
  ghost predicate Tracks(a: Abs, live: seq<(string, string)>) {
    forall h :: Increasing(Values(a, h)) && LiveOf(live, h) == Quads(Usables(Values(a, h)))
  }

  lemma {:induction false} LiveOfDropped(live: seq<(string, string)>, host: string, ips: seq<string>, h: string)
    ensures LiveOf(Dropped(live, host, ips), h) == if h == host then Missing(LiveOf(live, h), ips) else LiveOf(live, h)
  {
    if live != [] {
      LiveOfDropped(live[..|live| - 1], host, ips, h);
      var rest := Dropped(live[..|live| - 1], host, ips);
      var last := live[|live| - 1];
      assert (rest + [last])[..|rest|] == rest;
      var before := LiveOf(live[..|live| - 1], h);
      assert (before + [last.1])[..|before|] == before;
    }
  }

  lemma {:induction false} UsablesRemove(values: seq<address>, ips: seq<string>)
    ensures Quads(Usables(Remove(values, ips))) == Missing(Quads(Usables(values)), ips)
  {
    hide InetInt2Ip;
    if values != [] {
      var init, v := values[..|values| - 1], values[|values| - 1];
      UsablesRemove(init, ips);
      UsablesSnoc(Remove(init, ips), v);
      QuadsSnoc(Usables(init), v);
      QuadsSnoc(Usables(Remove(init, ips)), v);
      var q := Quads(Usables(init));
      assert (q + [InetInt2Ip(v)])[..|q|] == q;
    }
  }

  lemma UsablesSnoc(values: seq<address>, v: address)
    ensures Usables(values + [v]) == if v % 256 >= 2 then Usables(values) + [v] else Usables(values)
  {
    assert (values + [v])[..|values|] == values;
  }

  lemma QuadsSnoc(values: seq<address>, v: address)
    ensures Quads(values + [v]) == Quads(values) + [InetInt2Ip(v)]
  {
  }

  lemma {:induction false} RemoveIncreasing(values: seq<address>, ips: seq<string>)
    requires Increasing(values)
    ensures Increasing(Remove(values, ips))
    ensures forall v :: v in Remove(values, ips) ==> v in values
  {
    hide InetInt2Ip;
    if values != [] {
      var init, v := values[..|values| - 1], values[|values| - 1];
      RemoveIncreasing(init, ips);
      var rest := Remove(init, ips);
      assert values == init + [v];
      forall i | 0 <= i < |rest| ensures rest[i] < v {
        assert rest[i] in rest && rest[i] in init;
        var k :| 0 <= k < |init| && init[k] == rest[i];
        assert values[k] < values[|init|];
      }
    }
  }

  lemma UsablesAllocated(network: address, values: seq<address>)
    ensures var n := NextInt(network, values);
            Usables(Allocated(network, values)) == Usables(values) + [Usable(n)]
  {
    hide NextInt, Usables;
    UsablesMarkers(values, NextInt(network, values));
  }

  lemma UsablesMarkers(values: seq<address>, n: address)
    ensures Usables(values + Markers(n) + [Usable(n)]) == Usables(values) + [Usable(n)]
  {
    hide Usables;
    if n % 256 == 0 {
      assert n + 2 < TWO_32 && (n + 1) % 256 == 1 && (n + 2) % 256 == 2;
      var one, two: address := n + 1, n + 2;
      UsablesSnoc(values, n);
      UsablesSnoc(values + [n], one);
      UsablesSnoc(values + [n] + [one], two);
      assert values + Markers(n) + [Usable(n)] == values + [n] + [one] + [two];
    } else if n % 256 == 1 {
      assert n + 1 < TWO_32 && (n + 1) % 256 == 2;
      var one: address := n + 1;
      UsablesSnoc(values, n);
      UsablesSnoc(values + [n], one);
      assert values + Markers(n) + [Usable(n)] == values + [n] + [one];
    } else {
      UsablesSnoc(values, n);
      assert values + Markers(n) + [Usable(n)] == values + [n];
    }
  }

  lemma PathValues(c: Config, kv: Store, a: Abs, host: string)
    requires Represents(c, kv, a)
    ensures forall h :: Values(Path(a, host), h) == Values(a, h) && Values(Init(a, host), h) == Values(a, h)
  {
    PathRecord(c, kv, a, host);
  }

  /** One step of any host keeps the representation and the tracking of live addresses. */
  lemma StepKeeps(c: Config, s: System, a: Abs, op: Op)
    requires Represents(c, s.kv, a) && Tracks(a, s.live) && ValidHost(op.host)
    requires op.UnusedOp? ==> UnusedKV(c, s.kv, op.host).Some?
    ensures Represents(c, Next(c, s, op).kv, AbsNext(Base(c), a, op))
    ensures Tracks(AbsNext(Base(c), a, op), Next(c, s, op).live)
  {
    hide Represents, Path, IpamRefinement.Init, InitKV, UnusedKV, ReleaseKV, Network, InetInt2Ip, InetIP2Int,
         ValidHost, Allocated, NextInt, Usable, Remove, Increasing, Quads, Usables;
    var host, base := op.host, Base(c);
    KnownHost(c, s.kv, a, host);
    PathValues(c, s.kv, a, host);
    assert Increasing(Values(a, host));
    match op {
      case InitOp(_) =>
        InitRefines(c, s.kv, a, host);
      case UnusedOp(_) =>
        UnusedRefines(c, s.kv, a, host);
        PathRecord(c, s.kv, a, host);
        PathRefines(c, s.kv, a, host);
        var net := NetworkOf(base, Path(a, host), host);
        var values := Values(a, host);
        assert TWO_32 - 1 !in values;
        AllocationIncreases(net, values);
        UsablesAllocated(net, values);
        QuadsSnoc(Usables(values), Usable(NextInt(net, values)));
        TracksUnused(a, Unused(base, a, host), s.live, host, InetInt2Ip(NewAddress(base, a, host)));
      case ReleaseOp(_, ips) =>
        ReleaseKVRefines(c, s.kv, a, host, ips);
        PathRecord(c, s.kv, a, host);
        RemoveIncreasing(Values(a, host), ips);
        UsablesRemove(Values(a, host), ips);
        TracksRelease(a, Release(a, host, ips), s.live, host, ips);
    }
  }

  lemma TracksUnused(a: Abs, a': Abs, live: seq<(string, string)>, host: string, ip: string)
    requires Tracks(a, live)
    requires forall h :: h != host ==> Values(a', h) == Values(a, h)
    requires Increasing(Values(a', host)) && Quads(Usables(Values(a', host))) == Quads(Usables(Values(a, host))) + [ip]
    ensures Tracks(a', live + [(host, ip)])
  {
    hide Increasing, Quads, Usables, InetInt2Ip;
    assert (live + [(host, ip)])[..|live|] == live;
  }

  lemma TracksRelease(a: Abs, a': Abs, live: seq<(string, string)>, host: string, ips: seq<string>)
    requires Tracks(a, live)
    requires forall h :: h != host ==> Values(a', h) == Values(a, h)
    requires Increasing(Values(a', host))
    requires Quads(Usables(Values(a', host))) == Missing(Quads(Usables(Values(a, host))), ips)
    ensures Tracks(a', Dropped(live, host, ips))
  {
    hide Increasing, Quads, Usables, InetInt2Ip, Missing;
    forall h
      ensures LiveOf(Dropped(live, host, ips), h) ==
              if h == host then Missing(LiveOf(live, h), ips) else LiveOf(live, h)
    {
      LiveOfDropped(live, host, ips, h);
    }
  }

  lemma {:induction false} RunKeeps(c: Config, ops: seq<Op>)
    requires GoodConfig(c) && Proper(c, ops)
    ensures Represents(c, Run(c, ops).kv, AbsRun(Base(c), ops))
    ensures Tracks(AbsRun(Base(c), ops), Run(c, ops).live)
    ensures AbsRun(Base(c), ops).hosts == Seen(ops)
  {
    hide Represents, Next, AbsNext, InetIP2Int, InetInt2Ip, ParseQuad, UnusedKV, ValidHost;
    if ops == [] {
      EmptyStore(c);
    } else {
      var init := ops[..|ops| - 1];
      RunKeeps(c, init);
      StepKeeps(c, Run(c, init), AbsRun(Base(c), init), ops[|ops| - 1]);
      HostsGrow(Base(c), AbsRun(Base(c), init), ops[|ops| - 1]);
    }
  }

  /** Every store a run leaves meets the precondition of the service's methods. */
  lemma ReachableIsValid(c: Config, ops: seq<Op>, host: string)
    requires GoodConfig(c) && Proper(c, ops) && ValidHost(host)
    ensures ValidStore(c, Run(c, ops).kv, host)
  {
    hide Run, AbsRun, PathKV, Path, InetIP2Int, InetInt2Ip, Encode, Network, HostKey, PoolKey, ParseQuad, PoolLeft,
         Entries, HostsStored, RecordsStored, WellFormed;
    RunKeeps(c, ops);
    var kv, a := Run(c, ops).kv, AbsRun(Base(c), ops);
    EncodeEntries(PoolLeft(Base(c), a));
    PathRefines(c, kv, a, host);
    StoredRecord(c, PathKV(c, kv, host), Path(a, host), host);
    QuadText(NetworkOf(Base(c), Path(a, host), host));
  }

  // -------------------------------------------------- one host, any history

  /** The recorded integers of a host after a history. */
  ghost function Recorded(c: Config, ops: seq<Op>, host: string): seq<address>
    requires GoodConfig(c)
  {
    Values(AbsRun(Base(c), ops), host)
  }

  /** A host's view of the store in terms of its integers and its rank. */
  lemma HostView(c: Config, ops: seq<Op>, host: string)
    requires GoodConfig(c) && Proper(c, ops) && ValidHost(host)
    ensures var kv, values, net := Run(c, ops).kv, Recorded(c, ops, host), Network(Base(c), RankOf(ops, host));
            && Increasing(values)
            && RecordSeen(c, kv, host) == Encode(values) && NetworkSeen(c, kv, host) == InetInt2Ip(net)
            && LiveOf(Run(c, ops).live, host) == Quads(Usables(values))
            && (UnusedKV(c, kv, host).Some? <==> TWO_32 - 1 !in values)
            && (UnusedKV(c, kv, host).Some? ==>
                  UnusedKV(c, kv, host).value.0 == InetInt2Ip(Usable(NextInt(net, values))))
  {
    hide Represents, Run, AbsRun, PathKV, Path, InetIP2Int, InetInt2Ip, Increasing, Encode, Quads, Usables,
         ValidHost, RecordOf, Usable, NextInt, HostKey, Network, UnusedKV, Unused, ParseQuad, LiveOf;
    RunKeeps(c, ops);
    var kv, a := Run(c, ops).kv, AbsRun(Base(c), ops);
    PathRefines(c, kv, a, host);
    PathRecord(c, kv, a, host);
    KnownHost(c, kv, a, host);
    KnownHost(c, PathKV(c, kv, host), Path(a, host), host);
    StoredRecord(c, PathKV(c, kv, host), Path(a, host), host);
    PathRank(a, host);
    assert Increasing(Values(a, host));
    UnusedRefines(c, kv, a, host);
  }

  lemma PathRank(a: Abs, host: string)
    ensures host in Path(a, host).hosts
    ensures Rank(Path(a, host).hosts, host) == if host in a.hosts then Rank(a.hosts, host) else |a.hosts|
  {
  }

  /**
    After any history in which every UnusedIP returned, the record string of a host lists strictly
    increasing addresses, hence no duplicates, and leaving out the .0 and .1 markers it lists
    exactly the host's live addresses in the order in which they were handed out.
   */
  lemma RecordHoldsLive(c: Config, ops: seq<Op>, host: string)
    requires GoodConfig(c) && Proper(c, ops) && ValidHost(host)
    ensures exists values: seq<address> ::
              Increasing(values) && RecordSeen(c, Run(c, ops).kv, host) == Encode(values)
              && LiveOf(Run(c, ops).live, host) == Quads(Usables(values))
  {
    hide Run, AbsRun, RecordSeen, InetIP2Int, InetInt2Ip, Increasing, Encode, Quads, Usables, ValidHost, UnusedKV,
         LiveOf, ParseQuad;
    HostView(c, ops, host);
  }

  /** Every address UnusedIP returns lies above everything the host has recorded. */
  lemma NewAddressIsLargest(c: Config, ops: seq<Op>, host: string, i: nat)
    requires GoodConfig(c) && Proper(c, ops) && ValidHost(host)
    requires UnusedKV(c, Run(c, ops).kv, host).Some?
    requires i < |Entries(RecordSeen(c, Run(c, ops).kv, host))|
    ensures var kv := Run(c, ops).kv;
            InetIP2Int(Entries(RecordSeen(c, kv, host))[i]) < InetIP2Int(UnusedKV(c, kv, host).value.0)
  {
    hide Run, AbsRun, RecordSeen, InetIP2Int, InetInt2Ip, Encode, ValidHost, UnusedKV, Entries, Network, Increasing,
         Usable, NextInt, LiveOf, Usables, ParseQuad, RankOf, Recorded, NetworkSeen, Proper, HostKey, Quads;
    HostView(c, ops, host);
    var values := Recorded(c, ops, host);
    var net := Network(Base(c), RankOf(ops, host));
    EntryAt(values, i);
    NextIsLarger(net, values, i);
    QuadRoundTrip(Usable(NextInt(net, values)));
  }

  lemma EntryAt(values: seq<address>, i: nat)
    requires i < |Entries(Encode(values))|
    ensures i < |values| && InetIP2Int(Entries(Encode(values))[i]) == values[i]
  {
    hide InetIP2Int, InetInt2Ip, ParseQuad, Encode, Entries;
    EncodeEntries(values);
    QuadRoundTrip(values[i]);
  }

  lemma NextIsLarger(network: address, values: seq<address>, i: nat)
    requires Increasing(values) && TWO_32 - 1 !in values && i < |values|
    ensures values[i] < Usable(NextInt(network, values))
  {
    NextOfIncreasing(network, values);
    assert values[|values| - 1] in values && values[i] in values;
  }

  // ------------------------------------------------------ networks and pool

  /**
    After any history exactly the hosts that have made a call are registered. In the order of their
    first calls they hold the networks of the pool in order, starting over after 256 of them; what
    the pool string lists is the rest of the current round.
   */
  lemma NetworksOfRun(c: Config, ops: seq<Op>)
    requires GoodConfig(c) && Proper(c, ops)
    ensures var kv, hosts := Run(c, ops).kv, Seen(ops);
            && NoDup(hosts)
            && (forall h :: ValidHost(h) ==> (Read(kv, HostKey(c, h)) != "" <==> h in hosts))
            && (forall k :: 0 <= k < |hosts| ==> Read(kv, HostKey(c, hosts[k])) == InetInt2Ip(Network(Base(c), k)))
            && (Read(kv, PoolKey(c)) == Encode(Networks(Base(c), |hosts| % 256))
                || (|hosts| % 256 == 0 && Read(kv, PoolKey(c)) == ""))
  {
    hide Run, AbsRun, Seen, InetIP2Int, InetInt2Ip, Encode, Network, HostKey, PoolKey, NoDup, RecordsStored;
    RunKeeps(c, ops);
    var kv, a := Run(c, ops).kv, AbsRun(Base(c), ops);
    EncodeEntries([]);
    forall h | ValidHost(h) ensures Read(kv, HostKey(c, h)) != "" <==> h in a.hosts {
      if h in a.hosts { RegisteredKey(c, kv, a, h); }
    }
  }

  /** In the formula for networks, ranks that agree modulo 256 are the ones that share one. */
  lemma SharedRanks(base: address, i: nat, k: nat)
    requires base % 256 == 0
    ensures InetInt2Ip(Network(base, i)) == InetInt2Ip(Network(base, k)) <==> i % 256 == k % 256
  {
    hide InetInt2Ip, Network;
    QuadInjective(Network(base, i), Network(base, k));
    NetworksDistinct(base, i, k);
  }

  predicate Registered(c: Config, kv: Store, host: string) {
    ValidHost(host) && Read(kv, HostKey(c, host)) != ""
  }

  lemma RegisteredRank(c: Config, ops: seq<Op>, host: string)
    requires GoodConfig(c) && Proper(c, ops) && ValidHost(host)
    ensures var hosts := Seen(ops);
            && (Registered(c, Run(c, ops).kv, host) <==> host in hosts)
            && (host in hosts ==>
                  RankOf(ops, host) < |hosts| && hosts[RankOf(ops, host)] == host
                  && Read(Run(c, ops).kv, HostKey(c, host)) == InetInt2Ip(Network(Base(c), RankOf(ops, host))))
  {
    hide Represents, Run, AbsRun, InetIP2Int, InetInt2Ip, ParseQuad, Network, HostKey;
    RunKeeps(c, ops);
    var kv, a := Run(c, ops).kv, AbsRun(Base(c), ops);
    UnregisteredOrNot(c, kv, a, host);
    if host in a.hosts {
      StoredAt(c, kv, a, Rank(a.hosts, host));
      QuadText(Network(Base(c), Rank(a.hosts, host)));
    }
  }

  /**
    After any run two registered hosts have the same network in the store exactly when their first
    calls were a multiple of 256 places apart.
   */
  lemma SharedNetworkIff(c: Config, ops: seq<Op>, h: string, g: string)
    requires GoodConfig(c) && Proper(c, ops) && Registered(c, Run(c, ops).kv, h) && Registered(c, Run(c, ops).kv, g)
    ensures Read(Run(c, ops).kv, HostKey(c, h)) == Read(Run(c, ops).kv, HostKey(c, g)) <==>
            RankOf(ops, h) % 256 == RankOf(ops, g) % 256
  {
    hide Run, AbsRun, InetIP2Int, InetInt2Ip, ParseQuad, Network, HostKey, Proper, RankOf;
    RegisteredRank(c, ops, h);
    RegisteredRank(c, ops, g);
    SharedRanks(Base(c), RankOf(ops, h), RankOf(ops, g));
  }

  /** hosts lists the registered hosts of a store. */
  ghost predicate Lists(c: Config, kv: Store, hosts: seq<string>) {
    NoDup(hosts) && forall h :: h in hosts <==> Registered(c, kv, h)
  }

  ghost predicate AllDifferent(c: Config, kv: Store, hosts: seq<string>) {
    forall i, k :: 0 <= i < k < |hosts| ==> Read(kv, HostKey(c, hosts[i])) != Read(kv, HostKey(c, hosts[k]))
  }

  /** After any run all registered hosts have pairwise different networks exactly when they are at most 256. */
  lemma DistinctIff(c: Config, ops: seq<Op>, hosts: seq<string>)
    requires GoodConfig(c) && Proper(c, ops) && Lists(c, Run(c, ops).kv, hosts)
    ensures AllDifferent(c, Run(c, ops).kv, hosts) <==> |hosts| <= 256
  {
    hide Run, AbsRun, Seen, InetIP2Int, InetInt2Ip, ParseQuad, Network, HostKey, Proper, RankOf, Registered, Represents;
    var kv := Run(c, ops).kv;
    HostsListed(c, ops);
    SameLength(hosts, Seen(ops));
    if |hosts| <= 256 {
      forall i, k | 0 <= i < k < |hosts| ensures Read(kv, HostKey(c, hosts[i])) != Read(kv, HostKey(c, hosts[k])) {
        assert hosts[i] in hosts && hosts[k] in hosts;
        DifferentNetworks(c, ops, hosts[i], hosts[k]);
      }
    } else {
      var h, g := Seen(ops)[0], Seen(ops)[256];
      assert h in Seen(ops) && g in Seen(ops);
      SameNetworks(c, ops, h, g);
      var i :| 0 <= i < |hosts| && hosts[i] == h;
      var k :| 0 <= k < |hosts| && hosts[k] == g;
      assert i != k;
    }
  }

  lemma HostsListed(c: Config, ops: seq<Op>)
    requires GoodConfig(c) && Proper(c, ops)
    ensures Lists(c, Run(c, ops).kv, Seen(ops))
  {
    hide Run, AbsRun, InetIP2Int, InetInt2Ip, ParseQuad, Network, HostKey, Proper, RankOf, HostsStored,
         RecordsStored;
    RunKeeps(c, ops);
    var hosts := Seen(ops);
    forall h ensures h in hosts <==> Registered(c, Run(c, ops).kv, h) {
      if ValidHost(h) { RegisteredRank(c, ops, h); }
    }
  }

  lemma DifferentNetworks(c: Config, ops: seq<Op>, h: string, g: string)
    requires GoodConfig(c) && Proper(c, ops) && Registered(c, Run(c, ops).kv, h) && Registered(c, Run(c, ops).kv, g)
    requires h != g && |Seen(ops)| <= 256
    ensures Read(Run(c, ops).kv, HostKey(c, h)) != Read(Run(c, ops).kv, HostKey(c, g))
  {
    hide Run, AbsRun, InetIP2Int, InetInt2Ip, ParseQuad, Network, HostKey, Proper, RankOf;
    RegisteredRank(c, ops, h);
    RegisteredRank(c, ops, g);
    SharedNetworkIff(c, ops, h, g);
  }

  /** The first host and the 257th. */
  lemma SameNetworks(c: Config, ops: seq<Op>, h: string, g: string)
    requires GoodConfig(c) && Proper(c, ops) && NoDup(Seen(ops))
    requires |Seen(ops)| > 256
    requires h == Seen(ops)[0] && g == Seen(ops)[256]
    requires Registered(c, Run(c, ops).kv, h) && Registered(c, Run(c, ops).kv, g)
    ensures h != g && Read(Run(c, ops).kv, HostKey(c, h)) == Read(Run(c, ops).kv, HostKey(c, g))
  {
    hide Run, AbsRun, InetIP2Int, InetInt2Ip, ParseQuad, Network, HostKey, Proper;
    RegisteredRank(c, ops, h);
    RegisteredRank(c, ops, g);
    SharedNetworkIff(c, ops, h, g);
  }

  lemma {:induction false} NoDupBound(s: seq<string>, t: set<string>)
    requires NoDup(s) && forall x :: x in s ==> x in t
    ensures |s| <= |t|
    decreases |s|
  {
    if s != [] {
      var last := s[|s| - 1];
      var init := s[..|s| - 1];
      assert forall x :: x in init ==> x in t - {last};
      NoDupBound(init, t - {last});
    }
  }

  lemma {:induction false} NoDupSize(s: seq<string>)
    requires NoDup(s)
    ensures |set x | x in s| == |s|
  {
    if s != [] {
      var last, init := s[|s| - 1], s[..|s| - 1];
      NoDupSize(init);
      assert s == init + [last] && last !in init;
      assert (set x | x in s) == (set x | x in init) + {last};
    }
  }

  lemma SameLength(s: seq<string>, t: seq<string>)
    requires NoDup(s) && NoDup(t) && forall x :: x in s <==> x in t
    ensures |s| == |t|
  {
    NoDupSize(s);
    NoDupSize(t);
    assert (set x | x in s) == (set x | x in t);
  }

  /** One step of any host keeps the network of a registered host. */
  lemma NetworkStays(c: Config, ops: seq<Op>, op: Op, host: string)
    requires GoodConfig(c) && Proper(c, ops + [op]) && Registered(c, Run(c, ops).kv, host)
    ensures Read(Run(c, ops + [op]).kv, HostKey(c, host)) == Read(Run(c, ops).kv, HostKey(c, host))
  {
    hide Represents, Run, AbsNext, InetIP2Int, InetInt2Ip, Network, HostKey;
    assert (ops + [op])[..|ops|] == ops;
    RunKeeps(c, ops);
    RunKeeps(c, ops + [op]);
    var a, a' := AbsRun(Base(c), ops), AbsRun(Base(c), ops + [op]);
    assert a' == AbsNext(Base(c), a, op);
    HostsGrow(Base(c), a, op);
    UnregisteredOrNot(c, Run(c, ops).kv, a, host);
    assert a'.hosts[Rank(a.hosts, host)] == host;
    StoredAt(c, Run(c, ops).kv, a, Rank(a.hosts, host));
    StoredAt(c, Run(c, ops + [op]).kv, a', Rank(a.hosts, host));
  }

  /** Once a host has a network, no later steps of any hosts change it. */
  lemma {:induction false} NetworkPermanent(c: Config, ops: seq<Op>, later: seq<Op>, host: string)
    requires GoodConfig(c) && Proper(c, ops + later) && Registered(c, Run(c, ops).kv, host)
    ensures Read(Run(c, ops + later).kv, HostKey(c, host)) == Read(Run(c, ops).kv, HostKey(c, host))
    decreases |later|
  {
    hide Run, InetIP2Int, InetInt2Ip, ParseQuad, HostKey, UnusedKV, ValidHost;
    if later == [] {
      assert ops + later == ops;
    } else {
      var init, op := later[..|later| - 1], later[|later| - 1];
      assert ops + later == (ops + init) + [op];
      assert (ops + later)[..|ops + later| - 1] == ops + init;
      NetworkPermanent(c, ops, init, host);
      NetworkStays(c, ops + init, op, host);
    }
  }

  lemma StoredAt(c: Config, kv: Store, a: Abs, k: nat)
    requires Represents(c, kv, a) && k < |a.hosts|
    ensures Read(kv, HostKey(c, a.hosts[k])) == InetInt2Ip(Network(Base(c), k))
  {
  }

  lemma UnregisteredOrNot(c: Config, kv: Store, a: Abs, host: string)
    requires Represents(c, kv, a) && ValidHost(host)
    ensures Read(kv, HostKey(c, host)) != "" ==> host in a.hosts
  {
  }

  lemma HostsGrow(base: address, a: Abs, op: Op)
    requires base % 256 == 0
    ensures a.hosts <= AbsNext(base, a, op).hosts
    ensures AbsNext(base, a, op).hosts == if op.host in a.hosts then a.hosts else a.hosts + [op.host]
  {
    hide Network, Allocated;
  }
}
