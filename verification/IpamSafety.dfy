/**
  Safety of the allocator over all guarded runs of at most 256 hosts, its exact capacity, and the
  runs that fail outside those conditions.
 */
module IpamSafety {
  import opened InetAddr
  import opened IpamRecord
  import opened IpamStore
  import opened IpamService
  import opened IpamRefinement
  import opened IpamCluster

  /** Every recorded value lies in the usable part of the /24 block of its host. */
  ghost predicate InBlocks(base: address, a: Abs)
    requires base % 256 == 0
  {
    forall k :: 0 <= k < |a.hosts| ==> InBlock(Network(base, k), Values(a, a.hosts[k]))
  }

  ghost predicate InBlock(network: address, values: seq<address>) {
    forall v :: v in values ==> network + 2 <= v <= network + 255
  }

  lemma InsideBlock(network: address, n: address)
    requires network % 256 == 0 && network + 2 <= n <= network + 255
    ensures Markers(n) == [] && Usable(n) == n
  {
  }

  lemma AllocatedInBlock(network: address, values: seq<address>)
    requires Increasing(values) && InBlock(network, values) && network + 255 !in values
    requires network % 256 == 0
    ensures TWO_32 - 1 !in values
    ensures InBlock(network, Allocated(network, values))
  {
    hide MaxInt, Markers, Usable;
    assert network <= TWO_32 - 256;
    if values != [] {
      NextOfIncreasing(network, values);
      assert values[|values| - 1] in values;
    }
    InsideBlock(network, NextInt(network, values));
  }

  lemma InitBlocks(base: address, a: Abs, host: string)
    requires base % 256 == 0 && WellFormed(a) && InBlocks(base, a)
    ensures WellFormedHosts(Init(a, host)) && InBlocks(base, Init(a, host))
  {
    hide Network, InBlock;
    var a' := Init(a, host);
    forall k | 0 <= k < |a'.hosts| ensures InBlock(Network(base, k), Values(a', a'.hosts[k])) {
      if k < |a.hosts| {
        assert a'.hosts[k] == a.hosts[k] && a.hosts[k] in a.hosts;
      } else {
        EmptyInBlock(Network(base, k));
      }
    }
  }

  ghost predicate WellFormedHosts(a: Abs) {
    NoDup(a.hosts) && forall h :: h in a.recs <==> h in a.hosts
  }

  lemma EmptyInBlock(network: address)
    ensures InBlock(network, [])
  {
  }

  lemma WriteBlocks(base: address, a: Abs, host: string, values: seq<address>)
    requires base % 256 == 0 && WellFormedHosts(a) && InBlocks(base, a) && host in a.hosts
    requires InBlock(NetworkOf(base, a, host), values)
    ensures InBlocks(base, WithRecord(a, host, values))
  {
    hide Network, InBlock;
    var a' := WithRecord(a, host, values);
    forall k | 0 <= k < |a'.hosts| ensures InBlock(Network(base, k), Values(a', a'.hosts[k])) {
      if a.hosts[k] == host {
        assert k == Rank(a.hosts, host);
      }
    }
  }

  lemma PathBlocks(base: address, a: Abs, host: string)
    requires base % 256 == 0 && WellFormed(a) && InBlocks(base, a) && ValidHost(host)
    ensures var a1 := Path(a, host);
            WellFormedHosts(a1) && InBlocks(base, a1) && host in a1.hosts && Values(a1, host) == Values(a, host)
  {
    hide Network, InBlock;
    InitBlocks(base, a, host);
    assert WellFormed(Init(a, host));
    InitBlocks(base, Init(a, host), host);
  }

  lemma StepBlocks(base: address, a: Abs, op: Op)
    requires base % 256 == 0 && ZeroOctet(base) <= 2 && WellFormed(a) && InBlocks(base, a) && ValidHost(op.host)
    requires Increasing(Values(a, op.host))
    requires op.UnusedOp? ==> NetworkOf(base, PathOf(a, op.host), op.host) + 255 !in Values(a, op.host)
    ensures InBlocks(base, AbsNext(base, a, op))
  {
    hide Network, Allocated, Remove, Increasing, InBlocks, WellFormed, IpamRefinement.Init, Path, ValidHost;
    var host := op.host;
    PathBlocks(base, a, host);
    var a1 := Path(a, host);
    match op {
      case InitOp(_) => InitBlocks(base, a, host);
      case UnusedOp(_) =>
        var k := Rank(a1.hosts, host);
        NetworksDistinct(base, k, k);
        BlockAt(base, a1, k);
        AllocatedInBlock(Network(base, k), Values(a, host));
        WriteBlocks(base, a1, host, Allocated(Network(base, k), Values(a, host)));
      case ReleaseOp(_, ips) =>
        var k := Rank(a1.hosts, host);
        BlockAt(base, a1, k);
        RemoveIncreasing(Values(a, host), ips);
        WriteBlocks(base, a1, host, Remove(Values(a, host), ips));
    }
  }

  lemma BlockAt(base: address, a: Abs, k: nat)
    requires base % 256 == 0 && InBlocks(base, a) && k < |a.hosts|
    ensures InBlock(Network(base, k), Values(a, a.hosts[k]))
  {
  }

  /** Path, which always registers the host. */
  function PathOf(a: Abs, host: string): (a': Abs)
    ensures host in a'.hosts
  {
    PathRank(a, host);
    Path(a, host)
  }

  /** The guard of a call in terms of integers. */
  lemma RoomInInts(c: Config, ops: seq<Op>, host: string)
    requires GoodConfig(c) && Proper(c, ops) && ValidHost(host)
    ensures var net := Network(Base(c), RankOf(ops, host));
            HasRoom(c, Run(c, ops).kv, host) <==>
            (forall v :: v in Recorded(c, ops, host) ==> v != (net + 255) % TWO_32)
  {
    hide Run, AbsRun, RecordSeen, NetworkSeen, InetIP2Int, InetInt2Ip, Encode, ValidHost, UnusedKV, Entries, Network,
         Increasing, Usable, NextInt, LiveOf, Usables, ParseQuad, RankOf, Recorded;
    HostView(c, ops, host);
    var net, values := Network(Base(c), RankOf(ops, host)), Recorded(c, ops, host);
    QuadRoundTrip(net);
    EncodeEntries(values);
    var last := InetInt2Ip(net + 255);
    assert HasRoom(c, Run(c, ops).kv, host) <==> last !in Quads(values);
    forall i | 0 <= i < |values| ensures Quads(values)[i] == last <==> values[i] == (net + 255) % TWO_32 {
      QuadInjective(values[i], net + 255);
    }
    if last in Quads(values) {
      var i :| 0 <= i < |values| && Quads(values)[i] == last;
      assert values[i] in values;
    }
    if v :| v in values && v == (net + 255) % TWO_32 {
      var i :| 0 <= i < |values| && values[i] == v;
      assert Quads(values)[i] == last;
    }
  }

  /** In a guarded run every call returns and every recorded address stays in its host's block. */
  lemma {:induction false} GuardedKeeps(c: Config, ops: seq<Op>)
    requires GoodConfig(c) && ZeroOctet(Base(c)) <= 2 && Guarded(c, ops)
    ensures Proper(c, ops) && InBlocks(Base(c), AbsRun(Base(c), ops))
  {
    hide Represents, Run, AbsNext, InetIP2Int, InetInt2Ip, ParseQuad, UnusedKV, ValidHost, HasRoom, Network,
         ZeroOctet;
    if ops == [] {
    } else {
      var init, op := ops[..|ops| - 1], ops[|ops| - 1];
      GuardedKeeps(c, init);
      RunKeeps(c, init);
      GuardedStep(c, init, op);
    }
  }

  lemma GuardedStep(c: Config, init: seq<Op>, op: Op)
    requires GoodConfig(c) && ZeroOctet(Base(c)) <= 2 && Proper(c, init) && InBlocks(Base(c), AbsRun(Base(c), init))
    requires ValidHost(op.host) && (op.UnusedOp? ==> HasRoom(c, Run(c, init).kv, op.host))
    ensures InBlocks(Base(c), AbsNext(Base(c), AbsRun(Base(c), init), op))
    ensures op.UnusedOp? ==> UnusedKV(c, Run(c, init).kv, op.host).Some?
  {
    hide Run, AbsRun, AbsNext, InetIP2Int, InetInt2Ip, ParseQuad, UnusedKV, ValidHost, HasRoom, Network, ZeroOctet,
         InBlocks, InBlock, Increasing, RecordSeen, NetworkSeen, Encode, Quads, Usables, LiveOf, Path, Usable,
         NextInt, Represents, Allocated;
    var base, host, a := Base(c), op.host, AbsRun(Base(c), init);
    RunKeeps(c, init);
    RepresentsWellFormed(c, Run(c, init).kv, a);
    HostView(c, init, host);
    PathRank(a, host);
    var net := Network(base, RankOf(init, host));
    if op.UnusedOp? {
      RoomInInts(c, init, host);
      PathBlocks(base, a, host);
      BlockAt(base, Path(a, host), RankOf(init, host));
      NetworksDistinct(base, RankOf(init, host), 0);
      assert net + 255 < TWO_32;
      AllocatedInBlock(net, Recorded(c, init, host));
    }
    StepBlocks(base, a, op);
  }

  lemma RepresentsWellFormed(c: Config, kv: Store, a: Abs)
    requires Represents(c, kv, a)
    ensures WellFormed(a) && WellFormedHosts(a)
  {
  }

  // --------------------------------------------------------- cluster safety

  function Named(ops: seq<Op>): set<string> {
    set i | 0 <= i < |ops| :: ops[i].host
  }

  lemma {:induction false} HostsAreNamed(ops: seq<Op>)
    ensures forall h :: h in Seen(ops) <==> h in Named(ops)
  {
    if ops != [] {
      var init := ops[..|ops| - 1];
      HostsAreNamed(init);
      assert Named(ops) == Named(init) + {ops[|ops| - 1].host} by {
        assert ops == init + [ops[|ops| - 1]];
      }
    }
  }

  lemma {:induction false} LiveEntry(live: seq<(string, string)>, i: nat)
    requires i < |live|
    ensures live[i].1 in LiveOf(live, live[i].0)
  {
    if i < |live| - 1 {
      LiveEntry(live[..|live| - 1], i);
    }
  }

  lemma {:induction false} LiveDistinct(live: seq<(string, string)>, i: nat, j: nat)
    requires i < j < |live| && live[i].0 == live[j].0 && NoDup(LiveOf(live, live[i].0))
    ensures live[i].1 != live[j].1
  {
    var init, host := live[..|live| - 1], live[i].0;
    var before := LiveOf(init, host);
    assert forall k :: 0 <= k < |before| ==> before[k] == LiveOf(live, host)[k];
    if j < |live| - 1 {
      LiveDistinct(init, i, j);
    } else {
      LiveEntry(init, i);
      var k :| 0 <= k < |before| && before[k] == live[i].1;
      assert LiveOf(live, host)[|before|] == live[j].1;
    }
  }

  lemma {:induction false} UsablesSubset(values: seq<address>)
    requires Increasing(values)
    ensures Increasing(Usables(values)) && forall v :: v in Usables(values) ==> v in values
  {
    if values != [] {
      var init, v := values[..|values| - 1], values[|values| - 1];
      UsablesSubset(init);
      var rest := Usables(init);
      forall i | 0 <= i < |rest| ensures rest[i] < v {
        assert rest[i] in rest && rest[i] in init;
        var k :| 0 <= k < |init| && init[k] == rest[i];
        assert values[k] < values[|init|];
      }
      assert values == init + [v];
    }
  }

  /** The integer behind a live address: a recorded value of a registered host. */
  lemma LiveValue(c: Config, ops: seq<Op>, i: nat) returns (k: nat, v: address)
    requires GoodConfig(c) && Proper(c, ops) && i < |Run(c, ops).live|
    ensures var a := AbsRun(Base(c), ops);
            && k < |a.hosts| && a.hosts[k] == Run(c, ops).live[i].0
            && v in Values(a, a.hosts[k]) && Run(c, ops).live[i].1 == InetInt2Ip(v)
    ensures NoDup(LiveOf(Run(c, ops).live, Run(c, ops).live[i].0))
    ensures Read(Run(c, ops).kv, HostKey(c, Run(c, ops).live[i].0)) == InetInt2Ip(Network(Base(c), k))
    ensures NoDup(Seen(ops)) && AbsRun(Base(c), ops).hosts == Seen(ops)
  {
    hide Run, AbsRun, InetIP2Int, InetInt2Ip, ParseQuad, Network, LiveOf, Usables, Represents, HostKey, PoolKey,
         NoDup, Increasing;
    RunKeeps(c, ops);
    var live, a := Run(c, ops).live, AbsRun(Base(c), ops);
    var host := live[i].0;
    RepresentsWellFormed(c, Run(c, ops).kv, a);
    LiveEntry(live, i);
    var values := Values(a, host);
    assert Increasing(values) && LiveOf(live, host) == Quads(Usables(values));
    UsablesSubset(values);
    var p :| 0 <= p < |Usables(values)| && Quads(Usables(values))[p] == live[i].1;
    v := Usables(values)[p];
    assert v in Usables(values) && v in values;
    KnownHost(c, Run(c, ops).kv, a, host);
    k := Rank(a.hosts, host);
    StoredAt(c, Run(c, ops).kv, a, k);
    QuadsNoDup(Usables(values));
  }

  lemma QuadsNoDup(values: seq<address>)
    requires Increasing(values)
    ensures NoDup(Quads(values))
  {
    hide InetInt2Ip;
    forall i, j | 0 <= i < j < |values| ensures Quads(values)[i] != Quads(values)[j] {
      QuadInjective(values[i], values[j]);
    }
  }

  /**
    Cluster safety: whatever at most 256 hosts do in any interleaving, as long as no host asks for an
    address once the last one of its block is recorded, no address is live twice, on one host or
    on two, and every live address lies between network+2 and network+255 of the host holding it.
   */
  lemma ClusterSafety(c: Config, ops: seq<Op>)
    requires GoodConfig(c) && ZeroOctet(Base(c)) <= 2
    requires Guarded(c, ops) && |Named(ops)| <= 256
    ensures var s := Run(c, ops);
            && (forall i, j :: 0 <= i < j < |s.live| ==> s.live[i].1 != s.live[j].1)
            && (forall i :: 0 <= i < |s.live| ==>
                  var network := InetIP2Int(Read(s.kv, HostKey(c, s.live[i].0)));
                  network + 2 <= InetIP2Int(s.live[i].1) <= network + 255)
  {
    hide Run, AbsRun, InetIP2Int, InetInt2Ip, ParseQuad, Network, LiveOf, ZeroOctet, HostKey, Guarded, Proper,
         InBlocks, NoDup, Values;
    GuardedKeeps(c, ops);
    var s, base, a := Run(c, ops), Base(c), AbsRun(Base(c), ops);
    forall i | 0 <= i < |s.live|
      ensures var network := InetIP2Int(Read(s.kv, HostKey(c, s.live[i].0)));
              network + 2 <= InetIP2Int(s.live[i].1) <= network + 255
    {
      var k, v := LiveValue(c, ops, i);
      BlockAt(base, a, k);
      QuadRoundTrip(v);
      QuadRoundTrip(Network(base, k));
    }
    forall i, j | 0 <= i < j < |s.live| ensures s.live[i].1 != s.live[j].1 {
      PairDistinct(c, ops, i, j);
    }
  }

  lemma PairDistinct(c: Config, ops: seq<Op>, i: nat, j: nat)
    requires GoodConfig(c) && ZeroOctet(Base(c)) <= 2 && |Named(ops)| <= 256
    requires Proper(c, ops) && InBlocks(Base(c), AbsRun(Base(c), ops))
    requires i < j < |Run(c, ops).live|
    ensures Run(c, ops).live[i].1 != Run(c, ops).live[j].1
  {
    hide Run, AbsRun, InetIP2Int, InetInt2Ip, ParseQuad, Network, LiveOf, ZeroOctet, HostKey, Proper, InBlocks,
         Values, Named, NoDup, Seen;
    var s, base, a := Run(c, ops), Base(c), AbsRun(Base(c), ops);
    var k, v := LiveValue(c, ops, i);
    var l, w := LiveValue(c, ops, j);
    if s.live[i].0 == s.live[j].0 {
      LiveDistinct(s.live, i, j);
    } else {
      HostsAreNamed(ops);
      NoDupBound(Seen(ops), Named(ops));
      BlockAt(base, a, k);
      BlockAt(base, a, l);
      OtherBlock(base, k, l, v, w);
      QuadInjective(v, w);
    }
  }

  lemma OtherBlock(base: address, k: nat, l: nat, v: address, w: address)
    requires base % 256 == 0 && ZeroOctet(base) <= 2 && k < 256 && l < 256 && k != l
    requires Network(base, k) + 2 <= v <= Network(base, k) + 255
    requires Network(base, l) + 2 <= w <= Network(base, l) + 255
    ensures v != w
  {
    hide Network, ZeroOctet;
    NetworksDistinct(base, k, l);
  }

  /** If moreover no octet under the mask is 0, every live address belongs to the configured subnet. */
  lemma LiveInSubnet(c: Config, ops: seq<Op>, i: nat)
    requires GoodConfig(c) && Base(c) % MaskSize(c.mask) == 0 && Guarded(c, ops)
    requires c.mask != "24" && ByteAt(Base(c), 0) != 0 && (c.mask != "8" ==> ByteAt(Base(c), 1) != 0)
    requires i < |Run(c, ops).live|
    ensures Base(c) <= InetIP2Int(Run(c, ops).live[i].1) < Base(c) + MaskSize(c.mask)
  {
    hide Run, AbsRun, InetIP2Int, InetInt2Ip, ParseQuad, LiveOf, HostKey, Guarded, Proper, InBlocks, NoDup, Values,
         Network, ByteAt, Base;
    MaskedOctet(Base(c), c.mask);
    GuardedKeeps(c, ops);
    var k, v := LiveValue(c, ops, i);
    BlockAt(Base(c), AbsRun(Base(c), ops), k);
    QuadRoundTrip(v);
    PoolFitsIff(Base(c), c.mask);
    SameNetwork(Base(c), k);
    assert k % 256 < 256;
    assert Base(c) <= Network(Base(c), k % 256);
  }

  lemma MaskedOctet(base: address, segment: string)
    requires base % MaskSize(segment) == 0 && segment != "24"
    ensures ByteAt(base, 2) == 0 && base % 256 == 0 && ZeroOctet(base) <= 2
  {
    MaskOff(base, segment);
  }

  // ------------------------------------------------ exactness of the conditions

  /** After a guarded history the next address stays in the host's block exactly when the guard holds. */
  lemma StaysInBlockIff(c: Config, ops: seq<Op>, host: string)
    requires GoodConfig(c) && ZeroOctet(Base(c)) <= 2 && Guarded(c, ops) && ValidHost(host)
    requires UnusedKV(c, Run(c, ops).kv, host).Some?
    ensures var network := InetIP2Int(NetworkSeen(c, Run(c, ops).kv, host));
            var ip := InetIP2Int(UnusedKV(c, Run(c, ops).kv, host).value.0);
            network + 2 <= ip <= network + 255 <==> HasRoom(c, Run(c, ops).kv, host)
  {
    hide Run, AbsRun, RecordSeen, NetworkSeen, InetIP2Int, InetInt2Ip, Encode, ValidHost, UnusedKV, Entries, Network,
         ZeroOctet, Increasing, LiveOf, Usables, ParseQuad, RankOf, Guarded, Proper, HasRoom, InBlocks, Usable,
         NextInt, Quads, Path;
    GuardedKeeps(c, ops);
    HostView(c, ops, host);
    RoomInInts(c, ops, host);
    var base, a, k := Base(c), AbsRun(Base(c), ops), RankOf(ops, host);
    var net, values := Network(base, k), Recorded(c, ops, host);
    RecordedInBlock(c, ops, host);
    NetworksDistinct(base, k, 0);
    QuadRoundTrip(net);
    QuadRoundTrip(Usable(NextInt(net, values)));
    NextInBlockIff(net, values);
  }

  lemma NextInBlockIff(net: address, values: seq<address>)
    requires Increasing(values) && InBlock(net, values) && net % 256 == 0 && TWO_32 - 1 !in values
    ensures net + 255 < TWO_32
    ensures net + 2 <= Usable(NextInt(net, values)) <= net + 255 <==> net + 255 !in values
  {
    hide MaxInt, Markers, Usable;
    assert net <= TWO_32 - 256;
    if net + 255 in values {
      NextOfIncreasing(net, values);
      assert values[|values| - 1] in values;
      AboveBlock(net);
    } else {
      if values != [] {
        NextOfIncreasing(net, values);
        assert values[|values| - 1] in values;
      }
      InsideBlock(net, NextInt(net, values));
    }
  }

  lemma AboveBlock(net: address)
    requires net % 256 == 0 && net + 256 < TWO_32
    ensures net + 512 <= TWO_32
    ensures Markers(net + 256) == [net + 256, net + 257] && Usable(net + 256) == net + 258
  {
    assert (net + 256) % 256 == 0;
  }

  lemma RecordedInBlock(c: Config, ops: seq<Op>, host: string)
    requires GoodConfig(c) && Proper(c, ops) && InBlocks(Base(c), AbsRun(Base(c), ops)) && ValidHost(host)
    ensures InBlock(Network(Base(c), RankOf(ops, host)), Recorded(c, ops, host))
  {
    hide Run, AbsRun, Network, InBlocks, InBlock, Represents, ParseQuad, InetIP2Int, Tracks, ValidHost;
    RunKeeps(c, ops);
    var a := AbsRun(Base(c), ops);
    KnownHost(c, Run(c, ops).kv, a, host);
    if host in a.hosts {
      BlockAt(Base(c), a, Rank(a.hosts, host));
    } else {
      EmptyInBlock(Network(Base(c), RankOf(ops, host)));
    }
  }

  /** One more UnusedIP of a host, in integers; other hosts keep what they have. */
  lemma RecordedStep(c: Config, ops: seq<Op>, host: string, other: string)
    requires GoodConfig(c) && Proper(c, ops) && ValidHost(host) && ValidHost(other)
    requires TWO_32 - 1 !in Recorded(c, ops, host)
    ensures var ops' := ops + [UnusedOp(host)];
            && Proper(c, ops')
            && Recorded(c, ops', host) == Allocated(Network(Base(c), RankOf(ops, host)), Recorded(c, ops, host))
            && RankOf(ops', host) == RankOf(ops, host)
            && (other != host ==> Recorded(c, ops', other) == Recorded(c, ops, other))
            && (other != host && other !in Seen(ops) ==>
                  other !in Seen(ops') && RankOf(ops', other) == |Seen(ops')|)
            && |Seen(ops')| ==
               (if host in Seen(ops) then 0 else 1) + |Seen(ops)|
            && host in Seen(ops')
            && (host in Seen(ops) ==> Seen(ops') == Seen(ops))
            && var n := NextInt(Network(Base(c), RankOf(ops, host)), Recorded(c, ops, host));
               Run(c, ops').live == Run(c, ops).live + [(host, InetInt2Ip(Usable(n)))]
  {
    hide Represents, InetIP2Int, InetInt2Ip, ParseQuad, UnusedKV, ValidHost, Network, Allocated, RecordSeen,
         NetworkSeen, Increasing, Encode, Quads, Usables, LiveOf, Usable, NextInt, Tracks;
    var ops' := ops + [UnusedOp(host)];
    assert ops'[..|ops|] == ops && ops'[|ops|] == UnusedOp(host);
    HostView(c, ops, host);
    RunKeeps(c, ops);
    var a := AbsRun(Base(c), ops);
    KnownHost(c, Run(c, ops).kv, a, host);
    KnownHost(c, Run(c, ops).kv, a, other);
    PathRank(a, host);
    PathRecord(c, Run(c, ops).kv, a, host);
    RepresentsWellFormed(c, Run(c, ops).kv, a);
  }

  function Repeat(host: string, n: nat): seq<Op> {
    if n == 0 then [] else Repeat(host, n - 1) + [UnusedOp(host)]
  }

  function Count(first: nat, n: nat): seq<address>
    requires first + n <= TWO_32
  {
    seq<address>(n, i requires 0 <= i < n => first + i)
  }

  /** What k calls in a row hand out when each gets the address after the one before. */
  function Given(host: string, first: nat, k: nat): seq<(string, string)> {
    seq<(string, string)>(k, i requires 0 <= i < k => (host, InetInt2Ip(first + i)))
  }

  /** A host's record and network as the store shows them. */
  lemma StoreView(c: Config, ops: seq<Op>, host: string)
    requires GoodConfig(c) && Proper(c, ops) && ValidHost(host)
    ensures RecordSeen(c, Run(c, ops).kv, host) == Encode(Recorded(c, ops, host))
    ensures RecordSeen(c, Run(c, ops).kv, host) == "" <==> Recorded(c, ops, host) == []
    ensures InetIP2Int(NetworkSeen(c, Run(c, ops).kv, host)) == Network(Base(c), RankOf(ops, host))
  {
    hide Run, AbsRun, RecordSeen, NetworkSeen, InetIP2Int, InetInt2Ip, Encode, ValidHost, UnusedKV, Network,
         Increasing, Usable, NextInt, LiveOf, Usables, ParseQuad, RankOf, Recorded, Proper, Entries, Quads;
    HostView(c, ops, host);
    EncodeEntries(Recorded(c, ops, host));
    QuadRoundTrip(Network(Base(c), RankOf(ops, host)));
  }

  /** The number before the next address of an increasing record inside a block. */
  function Top(net: address, values: seq<address>): int {
    if values == [] then net + 1 else values[|values| - 1]
  }

  /** Calls of a host in a row up to the end of its block, in integers; other hosts keep what they have. */
  lemma {:induction false} CapacityInInts(c: Config, ops: seq<Op>, host: string, k: nat)
    requires GoodConfig(c) && ZeroOctet(Base(c)) <= 2 && Proper(c, ops) && ValidHost(host)
    requires var net, values := Network(Base(c), RankOf(ops, host)), Recorded(c, ops, host);
             InBlock(net, values) && Top(net, values) + k <= net + 255
    ensures var net, values := Network(Base(c), RankOf(ops, host)), Recorded(c, ops, host);
            && net + 256 <= TWO_32 && net % 256 == 0 && 0 <= Top(net, values)
            && Proper(c, ops + Repeat(host, k))
            && Recorded(c, ops + Repeat(host, k), host) == values + Count(Top(net, values) + 1, k)
            && RankOf(ops + Repeat(host, k), host) == RankOf(ops, host)
            && Run(c, ops + Repeat(host, k)).live == Run(c, ops).live + Given(host, Top(net, values) + 1, k)
            && (forall h :: ValidHost(h) && h != host ==> Recorded(c, ops + Repeat(host, k), h) == Recorded(c, ops, h))
  {
    hide AbsRun, Network, ParseQuad, InetIP2Int, InetInt2Ip, ValidHost, ZeroOctet, RankOf, Recorded, Run, Proper, Seen,
         Increasing, InBlock, Top, Given, Count;
    var net, values := Network(Base(c), RankOf(ops, host)), Recorded(c, ops, host);
    NetworksDistinct(Base(c), RankOf(ops, host), 0);
    BlockTop(net, values);
    if k == 0 {
      assert ops + Repeat(host, 0) == ops;
      CountNone(host, Top(net, values) + 1);
    } else {
      CapacityInInts(c, ops, host, k - 1);
      IncreasingRecord(c, ops, host);
      var before := ops + Repeat(host, k - 1);
      OneMore(c, before, host, net, values, k - 1);
      assert before + [UnusedOp(host)] == ops + Repeat(host, k);
      GivenSnoc(host, Top(net, values) + 1, k - 1);
    }
  }

  lemma CountNone(host: string, first: nat)
    requires first <= TWO_32
    ensures Count(first, 0) == [] && Given(host, first, 0) == []
  {
  }

  lemma OneMore(c: Config, ops: seq<Op>, host: string, net: address, values: seq<address>, k: nat)
    requires GoodConfig(c) && Proper(c, ops) && ValidHost(host) && net % 256 == 0
    requires net == Network(Base(c), RankOf(ops, host)) && net + 256 <= TWO_32
    requires Increasing(values) && InBlock(net, values) && 0 <= Top(net, values) && Top(net, values) + k < net + 255
    requires Recorded(c, ops, host) == values + Count(Top(net, values) + 1, k)
    ensures var ops', n := ops + [UnusedOp(host)], Top(net, values) + 1;
            && Proper(c, ops') && RankOf(ops', host) == RankOf(ops, host)
            && Recorded(c, ops', host) == values + Count(n, k + 1)
            && Run(c, ops').live == Run(c, ops).live + [(host, InetInt2Ip(n + k))]
            && (forall h :: ValidHost(h) && h != host ==> Recorded(c, ops', h) == Recorded(c, ops, h))
  {
    hide AbsRun, Network, ParseQuad, InetIP2Int, InetInt2Ip, ValidHost, ZeroOctet, RankOf, Recorded, Run, Proper, Seen,
         Increasing, InBlock, Top, Count, Allocated, NextInt, Usable;
    CountAllocates(net, values, k);
    forall h | ValidHost(h) { RecordedStep(c, ops, host, h); }
  }

  lemma BlockTop(net: address, values: seq<address>)
    requires InBlock(net, values) && net % 256 == 0
    ensures net + 256 <= TWO_32 && net + 1 <= Top(net, values) <= net + 255
  {
    if values != [] {
      assert values[|values| - 1] in values;
    }
  }

  lemma IncreasingRecord(c: Config, ops: seq<Op>, host: string)
    requires GoodConfig(c) && Proper(c, ops) && ValidHost(host)
    ensures Increasing(Recorded(c, ops, host))
  {
    hide Run, AbsRun, RecordSeen, NetworkSeen, InetIP2Int, InetInt2Ip, Encode, ValidHost, UnusedKV, Network,
         Increasing, Usable, NextInt, LiveOf, Usables, ParseQuad, RankOf, Recorded, Proper, Quads;
    HostView(c, ops, host);
  }

  lemma CapacityOfEmpty(c: Config, ops: seq<Op>, host: string, k: nat)
    requires GoodConfig(c) && ZeroOctet(Base(c)) <= 2 && Proper(c, ops) && ValidHost(host)
    requires Recorded(c, ops, host) == [] && k <= 254
    ensures var net := Network(Base(c), RankOf(ops, host));
            && net + 256 <= TWO_32 && net % 256 == 0
            && Proper(c, ops + Repeat(host, k))
            && Recorded(c, ops + Repeat(host, k), host) == Count(net + 2, k)
            && RankOf(ops + Repeat(host, k), host) == RankOf(ops, host)
            && Run(c, ops + Repeat(host, k)).live == Run(c, ops).live + Given(host, net + 2, k)
            && (forall h :: ValidHost(h) && h != host ==> Recorded(c, ops + Repeat(host, k), h) == Recorded(c, ops, h))
  {
    hide AbsRun, Network, ParseQuad, InetIP2Int, InetInt2Ip, ValidHost, ZeroOctet, RankOf, Recorded, Run,
         Proper, Seen, Repeat, Given, InBlock;
    EmptyInBlock(Network(Base(c), RankOf(ops, host)));
    CapacityInInts(c, ops, host, k);
  }

  lemma GivenSnoc(host: string, first: nat, k: nat)
    ensures Given(host, first, k + 1) == Given(host, first, k) + [(host, InetInt2Ip(first + k))]
  {
  }

  /**
    Exact capacity: a host whose record is empty gets network+2, network+3, ... up to network+255
    from 254 calls in a row, after any history of all hosts: the (k+1)-th call returns network+2+k,
    and after k calls the record string and the live list hold exactly the k addresses more.
   */
  lemma Capacity(c: Config, ops: seq<Op>, host: string, k: nat)
    requires GoodConfig(c) && ZeroOctet(Base(c)) <= 2 && Proper(c, ops) && ValidHost(host)
    requires RecordSeen(c, Run(c, ops).kv, host) == "" && k <= 254
    ensures var net := InetIP2Int(NetworkSeen(c, Run(c, ops).kv, host));
            var s := Run(c, ops + Repeat(host, k));
            && net + 256 <= TWO_32 && Proper(c, ops + Repeat(host, k))
            && s.live == Run(c, ops).live + Given(host, net + 2, k)
            && RecordSeen(c, s.kv, host) == Encode(Count(net + 2, k))
            && (k < 254 ==> UnusedKV(c, s.kv, host).Some?
                            && UnusedKV(c, s.kv, host).value.0 == InetInt2Ip(net + 2 + k))
  {
    hide AbsRun, Network, ParseQuad, InetIP2Int, InetInt2Ip, ValidHost, ZeroOctet, RankOf, Recorded, Run, Proper,
         UnusedKV, RecordSeen, NetworkSeen, Encode, Quads, Usables, LiveOf, Increasing, Repeat, Usable, NextInt,
         Count, Given, Allocated;
    StoreView(c, ops, host);
    CapacityOfEmpty(c, ops, host, k);
    StoreView(c, ops + Repeat(host, k), host);
    if k < 254 {
      var net := Network(Base(c), RankOf(ops, host));
      CountFromEmpty(net, k);
      HostView(c, ops + Repeat(host, k), host);
    }
  }

  /** The largest recorded address, as nextUnusedIP finds it in the record string. */
  lemma RecordTop(c: Config, ops: seq<Op>, host: string)
    requires GoodConfig(c) && Proper(c, ops) && ValidHost(host) && RecordSeen(c, Run(c, ops).kv, host) != ""
    ensures Entries(RecordSeen(c, Run(c, ops).kv, host)) != [] && Recorded(c, ops, host) != []
    ensures forall net: address ::
              MaxValue(Entries(RecordSeen(c, Run(c, ops).kv, host))) == Top(net, Recorded(c, ops, host))
  {
    hide Run, AbsRun, RecordSeen, NetworkSeen, InetIP2Int, InetInt2Ip, Encode, ValidHost, UnusedKV, Network, MaxValue,
         MaxInt, Usable, NextInt, LiveOf, Usables, ParseQuad, RankOf, Recorded, Proper, Entries;
    StoreView(c, ops, host);
    IncreasingRecord(c, ops, host);
    var values := Recorded(c, ops, host);
    EncodeEntries(values);
    MaxOfQuads(values);
    MaxIntBounds(values);
    LastIsMax(values);
  }

  lemma LastIsMax(values: seq<address>)
    requires Increasing(values) && values != []
    ensures MaxInt(values) == values[|values| - 1]
  {
    MaxIntBounds(values);
  }

  /**
    The same from a record that holds addresses already, after any guarded history: the calls go on
    above its maximum, to the end of the block, whatever has been released below.
   */
  lemma CapacityAbove(c: Config, ops: seq<Op>, host: string, k: nat)
    requires GoodConfig(c) && ZeroOctet(Base(c)) <= 2 && Guarded(c, ops) && ValidHost(host)
    requires RecordSeen(c, Run(c, ops).kv, host) != "" && Entries(RecordSeen(c, Run(c, ops).kv, host)) != []
    requires MaxValue(Entries(RecordSeen(c, Run(c, ops).kv, host))) + k
             <= InetIP2Int(NetworkSeen(c, Run(c, ops).kv, host)) + 255
    ensures var net := InetIP2Int(NetworkSeen(c, Run(c, ops).kv, host));
            var record := Entries(RecordSeen(c, Run(c, ops).kv, host));
            var max, s := MaxValue(record), Run(c, ops + Repeat(host, k));
            && net + 256 <= TWO_32 && Proper(c, ops + Repeat(host, k))
            && s.live == Run(c, ops).live + Given(host, max + 1, k)
            && Entries(RecordSeen(c, s.kv, host)) == record + Quads(Count(max + 1, k))
            && (max + k < net + 255 ==> UnusedKV(c, s.kv, host).Some?
                                        && UnusedKV(c, s.kv, host).value.0 == InetInt2Ip(max + 1 + k))
  {
    hide AbsRun, Network, ParseQuad, InetIP2Int, InetInt2Ip, ValidHost, ZeroOctet, RankOf, Recorded, Run, Proper,
         UnusedKV, RecordSeen, NetworkSeen, Encode, Quads, Usables, LiveOf, Increasing, Repeat, Usable, NextInt,
         Count, Given, Allocated, InBlocks, InBlock, Guarded, Entries, MaxValue, Top;
    GuardedKeeps(c, ops);
    StoreView(c, ops, host);
    RecordTop(c, ops, host);
    RecordedInBlock(c, ops, host);
    IncreasingRecord(c, ops, host);
    var net, values := Network(Base(c), RankOf(ops, host)), Recorded(c, ops, host);
    var after := ops + Repeat(host, k);
    CapacityInInts(c, ops, host, k);
    StoreView(c, after, host);
    EncodeEntries(values);
    EncodeEntries(Recorded(c, after, host));
    QuadsAppend(values, Count(Top(net, values) + 1, k));
    if Top(net, values) + k < net + 255 {
      CountAllocates(net, values, k);
      HostView(c, after, host);
    }
  }

  lemma RecordedRelease(c: Config, ops: seq<Op>, host: string, ips: seq<string>)
    requires GoodConfig(c) && Proper(c, ops) && ValidHost(host)
    ensures var ops' := ops + [ReleaseOp(host, ips)];
            && Proper(c, ops') && Recorded(c, ops', host) == Remove(Recorded(c, ops, host), ips)
            && RankOf(ops', host) == RankOf(ops, host)
  {
    hide Represents, InetIP2Int, InetInt2Ip, ParseQuad, UnusedKV, ValidHost, Network, Allocated, RecordSeen,
         NetworkSeen, Increasing, Encode, Quads, Usables, LiveOf, Usable, NextInt, Tracks, Remove;
    var ops' := ops + [ReleaseOp(host, ips)];
    assert ops'[..|ops|] == ops && ops'[|ops|] == ReleaseOp(host, ips);
    RunKeeps(c, ops);
    PathRecord(c, Run(c, ops).kv, AbsRun(Base(c), ops), host);
  }

  lemma {:induction false} RemoveCounted(first: nat, k: nat, n: nat)
    requires first + n < TWO_32 && k <= n
    ensures Remove(Count(first, k), Quads(Count(first, n))) == []
  {
    hide InetInt2Ip, Quads;
    if k > 0 {
      var values := Count(first, k);
      RemoveCounted(first, k - 1, n);
      assert values[..k - 1] == Count(first, k - 1);
      assert Count(first, n)[k - 1] == values[k - 1];
      QuadIn(values[k - 1], Count(first, n));
    }
  }

  lemma RemoveAllButLast(first: nat, n: nat)
    requires first + n < TWO_32
    ensures Remove(Count(first, n + 1), Quads(Count(first, n))) == [first + n]
  {
    hide InetInt2Ip, Quads;
    var values := Count(first, n + 1);
    RemoveCounted(first, n, n);
    assert values[..n] == Count(first, n) && values[n] == first + n;
    QuadIn(first + n, Count(first, n));
    assert first + n !in Count(first, n);
  }

  lemma AfterLast(net: address)
    requires net % 256 == 0 && net + 512 <= TWO_32
    ensures Usable(NextInt(net, [net + 255])) == net + 258
  {
    hide Usable, Markers;
    AboveBlock(net);
    assert MaxInt([net + 255]) == net + 255;
  }

  /**
    Released addresses are not handed out again below the maximum: with 253 of the 254 addresses of a
    block released and only the last one in use, the next call leaves the block.
   */
  lemma LeavesFreeBlock(c: Config, ops: seq<Op>, host: string, net: address)
    requires GoodConfig(c) && ZeroOctet(Base(c)) <= 2 && Proper(c, ops) && ValidHost(host)
    requires RecordSeen(c, Run(c, ops).kv, host) == ""
    requires net == InetIP2Int(NetworkSeen(c, Run(c, ops).kv, host)) && net + 512 <= TWO_32
    ensures var ops' := ops + Repeat(host, 254) + [ReleaseOp(host, Quads(Count(net + 2, 253)))];
            var kv := Run(c, ops').kv;
            && Proper(c, ops') && RecordSeen(c, kv, host) == InetInt2Ip(net + 255)
            && UnusedKV(c, kv, host).Some? && UnusedKV(c, kv, host).value.0 == InetInt2Ip(net + 258)
  {
    hide AbsRun, Network, ParseQuad, InetIP2Int, InetInt2Ip, ValidHost, ZeroOctet, RankOf, Recorded, Run, Proper,
         UnusedKV, RecordSeen, NetworkSeen, Encode, Quads, Usables, LiveOf, Increasing, Repeat, Usable, NextInt,
         Count, Given, Allocated, Remove;
    StoreView(c, ops, host);
    CapacityOfEmpty(c, ops, host, 254);
    var full, freed := ops + Repeat(host, 254), Quads(Count(net + 2, 253));
    RecordedRelease(c, full, host, freed);
    RemoveAllButLast(net + 2, 253);
    var ops' := full + [ReleaseOp(host, freed)];
    StoreView(c, ops', host);
    HostView(c, ops', host);
    AfterLast(net);
    EncodeOne(net + 255);
    assert TWO_32 - 1 !in [net + 255];
  }

  lemma EncodeOne(v: address)
    ensures Encode([v]) == InetInt2Ip(v)
  {
  }

  lemma RoomLeft(c: Config, ops: seq<Op>, host: string, k: nat)
    requires GoodConfig(c) && ZeroOctet(Base(c)) <= 2 && Proper(c, ops) && ValidHost(host)
    requires Recorded(c, ops, host) == [] && k <= 253
    ensures HasRoom(c, Run(c, ops + Repeat(host, k)).kv, host)
  {
    hide AbsRun, Network, ParseQuad, InetIP2Int, InetInt2Ip, ValidHost, ZeroOctet, RankOf, Recorded, HasRoom, Run,
         Proper, Repeat, Given;
    CapacityOfEmpty(c, ops, host, k);
    RoomInInts(c, ops + Repeat(host, k), host);
  }

  /** The guard is no restriction before the block is used up: all these 254 calls satisfy it. */
  lemma {:induction false} CapacityIsGuarded(c: Config, ops: seq<Op>, host: string, k: nat)
    requires GoodConfig(c) && ZeroOctet(Base(c)) <= 2 && Guarded(c, ops) && ValidHost(host)
    requires RecordSeen(c, Run(c, ops).kv, host) == "" && k <= 254
    ensures Guarded(c, ops + Repeat(host, k))
  {
    hide AbsRun, Network, ParseQuad, InetIP2Int, InetInt2Ip, ValidHost, ZeroOctet, RankOf, Recorded, HasRoom, Run,
         Proper, InBlocks, RecordSeen, Encode, NetworkSeen;
    if k == 0 {
      assert ops + Repeat(host, 0) == ops;
    } else {
      var before := ops + Repeat(host, k - 1);
      CapacityIsGuarded(c, ops, host, k - 1);
      GuardedKeeps(c, ops);
      StoreView(c, ops, host);
      RoomLeft(c, ops, host, k - 1);
      assert before + [UnusedOp(host)] == ops + Repeat(host, k);
      assert (before + [UnusedOp(host)])[..|before|] == before;
    }
  }

  lemma CountAfter(net: address, values: seq<address>, k: nat)
    requires Increasing(values) && 0 <= Top(net, values) && Top(net, values) + 1 + k < TWO_32
    ensures var top := Top(net, values);
            var now := values + Count(top + 1, k);
            && Increasing(now) && (now != [] ==> now[|now| - 1] == top + k)
            && now + [top + 1 + k] == values + Count(top + 1, k + 1)
  {
    assert forall v :: v in values ==> v <= Top(net, values);
    var top := Top(net, values);
    var now := values + Count(top + 1, k);
    forall i, j | 0 <= i < j < |now| ensures now[i] < now[j] {
      if i < |values| <= j {
        assert values[i] in values;
      }
    }
  }

  lemma CountAllocates(net: address, values: seq<address>, k: nat)
    requires Increasing(values) && InBlock(net, values) && net % 256 == 0 && net + 256 <= TWO_32
    requires 0 <= Top(net, values) && Top(net, values) + k < net + 255
    ensures var top := Top(net, values);
            var now := values + Count(top + 1, k);
            && NextInt(net, now) == top + 1 + k && Usable(top + 1 + k) == top + 1 + k
            && Allocated(net, now) == values + Count(top + 1, k + 1)
            && TWO_32 - 1 !in now
  {
    hide MaxInt, Markers, Usable, Count, Increasing;
    var top := Top(net, values);
    var now := values + Count(top + 1, k);
    BlockTop(net, values);
    CountAfter(net, values, k);
    InsideBlock(net, top + 1 + k);
    hide InBlock;
    if now != [] {
      NextOfIncreasing(net, now);
    } else {
      CountEmpty(top + 1, k);
    }
  }

  lemma CountEmpty(first: nat, k: nat)
    requires first + k <= TWO_32
    ensures |Count(first, k)| == k
  {
  }

  lemma CountFromEmpty(net: address, k: nat)
    requires net % 256 == 0 && net + 256 <= TWO_32 && k <= 253
    ensures NextInt(net, Count(net + 2, k)) == net + 2 + k && Usable(net + 2 + k) == net + 2 + k
    ensures Allocated(net, Count(net + 2, k)) == Count(net + 2, k + 1)
    ensures TWO_32 - 1 !in Count(net + 2, k)
  {
    hide NextInt, Usable, Allocated, Markers, Count;
    CountAllocates(net, [], k);
    assert [] + Count(net + 2, k) == Count(net + 2, k) && [] + Count(net + 2, k + 1) == Count(net + 2, k + 1);
  }

  lemma OverflowInInts(c: Config, ops: seq<Op>, host: string, net: address)
    requires GoodConfig(c) && ZeroOctet(Base(c)) <= 2 && Proper(c, ops) && ValidHost(host)
    requires Recorded(c, ops, host) == [] && net == Network(Base(c), RankOf(ops, host)) && net + 512 <= TWO_32
    ensures var full := ops + Repeat(host, 254);
            && Proper(c, full + [UnusedOp(host)])
            && Recorded(c, full + [UnusedOp(host)], host) == Count(net + 2, 257)
            && Run(c, full + [UnusedOp(host)]).live == Run(c, full).live + [(host, InetInt2Ip(net + 258))]
  {
    hide AbsRun, Network, ParseQuad, InetIP2Int, InetInt2Ip, ValidHost, ZeroOctet, RankOf, Recorded, Run, Proper,
         UnusedKV, RecordSeen, NetworkSeen, Encode, Quads, Usables, LiveOf, Increasing, Repeat, Allocated, Usable,
         NextInt, Count, Given;
    NetworksDistinct(Base(c), RankOf(ops, host), 0);
    CapacityOfEmpty(c, ops, host, 254);
    FullAllocates(net);
    RecordedStep(c, ops + Repeat(host, 254), host, host);
  }

  /** The 255th call leaves the block: it returns network+258 and records network+256 and network+257. */
  lemma Overflow(c: Config, ops: seq<Op>, host: string, net: address)
    requires GoodConfig(c) && ZeroOctet(Base(c)) <= 2 && Proper(c, ops) && ValidHost(host)
    requires RecordSeen(c, Run(c, ops).kv, host) == ""
    requires net == InetIP2Int(NetworkSeen(c, Run(c, ops).kv, host)) && net + 512 <= TWO_32
    ensures var full := ops + Repeat(host, 254);
            && Proper(c, full + [UnusedOp(host)])
            && RecordSeen(c, Run(c, full + [UnusedOp(host)]).kv, host) == Encode(Count(net + 2, 257))
            && Run(c, full + [UnusedOp(host)]).live == Run(c, full).live + [(host, InetInt2Ip(net + 258))]
  {
    hide AbsRun, Network, ParseQuad, InetIP2Int, InetInt2Ip, ValidHost, ZeroOctet, RankOf, Recorded, Run, Proper,
         RecordSeen, NetworkSeen, Encode, Repeat, Count;
    StoreView(c, ops, host);
    OverflowInInts(c, ops, host, net);
    StoreView(c, ops + Repeat(host, 254) + [UnusedOp(host)], host);
  }

  /** In the very last block of the address space the 255th call does not return. */
  lemma OverflowDiverges(c: Config, ops: seq<Op>, host: string)
    requires GoodConfig(c) && ZeroOctet(Base(c)) <= 2 && Proper(c, ops) && ValidHost(host)
    requires RecordSeen(c, Run(c, ops).kv, host) == ""
    requires InetIP2Int(NetworkSeen(c, Run(c, ops).kv, host)) + 256 == TWO_32
    ensures UnusedKV(c, Run(c, ops + Repeat(host, 254)).kv, host).None?
  {
    hide AbsRun, Network, ParseQuad, InetIP2Int, InetInt2Ip, ValidHost, ZeroOctet, RankOf, Recorded, Run, Proper,
         UnusedKV, RecordSeen, NetworkSeen, Encode, Quads, Usables, LiveOf, Increasing, Repeat, Given;
    StoreView(c, ops, host);
    CapacityOfEmpty(c, ops, host, 254);
    HostView(c, ops + Repeat(host, 254), host);
    assert Count(TWO_32 - 254, 254)[253] == TWO_32 - 1;
  }

  lemma FullAllocates(net: address)
    requires net % 256 == 0 && net + 256 < TWO_32
    ensures Allocated(net, Count(net + 2, 254)) == Count(net + 2, 257)
    ensures Usable(NextInt(net, Count(net + 2, 254))) == net + 258
    ensures TWO_32 - 1 !in Count(net + 2, 254)
  {
    hide MaxInt, Markers, Usable;
    AboveBlock(net);
    NextOfIncreasing(net, Count(net + 2, 254));
  }

  /** Without the guard: 255 calls of one host and one call of a second give both the same address. */
  lemma ExhaustionCollides(c: Config, a: string, b: string)
    requires GoodConfig(c) && ZeroOctet(Base(c)) == 2 && ValidHost(a) && ValidHost(b) && a != b
    ensures var ops := Repeat(a, 254) + [UnusedOp(a)] + [UnusedOp(b)];
            var ip := InetInt2Ip(Base(c) + 258);
            Proper(c, ops) && (a, ip) in Run(c, ops).live && (b, ip) in Run(c, ops).live
  {
    hide AbsRun, Network, ParseQuad, InetIP2Int, InetInt2Ip, ValidHost, ZeroOctet, Run, Repeat, Proper, Allocated,
         Usable, NextInt, Recorded, RankOf, Base;
    var base := Base(c);
    var ops1 := Repeat(a, 254) + [UnusedOp(a)];
    ExhaustedFirst(c, a, b);
    FirstNetworks(c);
    FirstAllocation(base + 256);
    RecordedStep(c, ops1, b, a);
    var live := Run(c, ops1).live;
    assert live[|live| - 1] == (a, InetInt2Ip(base + 258));
    var live' := Run(c, ops1 + [UnusedOp(b)]).live;
    assert live'[|live'| - 1] == (b, InetInt2Ip(base + 258)) && live'[|live| - 1] == live[|live| - 1];
  }

  lemma ExhaustedFirst(c: Config, a: string, b: string)
    requires GoodConfig(c) && ZeroOctet(Base(c)) == 2 && ValidHost(a) && ValidHost(b) && a != b
    ensures var ops1 := Repeat(a, 254) + [UnusedOp(a)];
            && Proper(c, ops1) && Recorded(c, ops1, b) == [] && RankOf(ops1, b) == 1
            && Run(c, ops1).live == Run(c, Repeat(a, 254)).live + [(a, InetInt2Ip(Base(c) + 258))]
  {
    hide AbsRun, Network, ParseQuad, InetIP2Int, InetInt2Ip, ValidHost, ZeroOctet, Run, Repeat, Proper, Allocated,
         Usable, NextInt, Recorded, RankOf, Base, Count;
    FirstNetworks(c);
    NetworksDistinct(Base(c), 0, 1);
    StartState(c, a);
    assert [] + Repeat(a, 254) == Repeat(a, 254);
    OneHost(c, a, b, 254);
    OverflowInInts(c, [], a, Base(c));
    CapacityOfEmpty(c, [], a, 254);
    FullAllocates(Base(c));
    RecordedStep(c, Repeat(a, 254), a, b);
  }

  lemma FirstNetworks(c: Config)
    requires GoodConfig(c)
    ensures Network(Base(c), 0) == Base(c)
    ensures ZeroOctet(Base(c)) == 2 ==> Network(Base(c), 1) == Base(c) + 256
    ensures ZeroOctet(Base(c)) == 3 ==> Network(Base(c), 1) == Base(c) + 1
  {
  }

  lemma StartState(c: Config, host: string)
    requires GoodConfig(c)
    ensures Proper(c, []) && Recorded(c, [], host) == [] && RankOf([], host) == 0 && Seen([]) == []
  {
  }

  lemma FirstAllocation(net: address)
    requires net % 256 == 0
    ensures NextInt(net, []) == net + 2 && Usable(net + 2) == net + 2
  {
  }

  /** While only one host has made calls, a second one is unregistered and next in rank. */
  lemma {:induction false} OneHost(c: Config, a: string, b: string, k: nat)
    requires GoodConfig(c) && ZeroOctet(Base(c)) <= 2 && ValidHost(a) && ValidHost(b) && a != b && 1 <= k <= 254
    ensures var ops := Repeat(a, k);
            Proper(c, ops) && a in Seen(ops) && b !in Seen(ops)
            && |Seen(ops)| == 1 && RankOf(ops, b) == 1 && Recorded(c, ops, b) == []
  {
    hide AbsRun, Network, ParseQuad, InetIP2Int, InetInt2Ip, ValidHost, ZeroOctet, Run, RankOf, Recorded, Proper,
         Allocated, Usable, NextInt;
    var ops := Repeat(a, k - 1);
    StartState(c, a);
    StartState(c, b);
    CapacityOfEmpty(c, [], a, k - 1);
    assert [] + ops == ops;
    NetworksDistinct(Base(c), 0, 0);
    CountFromEmpty(Network(Base(c), 0), k - 1);
    if k > 1 {
      OneHost(c, a, b, k - 1);
    }
    RecordedStep(c, ops, a, b);
  }

  lemma GuardedSnoc(c: Config, ops: seq<Op>, op: Op)
    ensures Guarded(c, ops + [op]) <==>
            Guarded(c, ops) && ValidHost(op.host) && (op.UnusedOp? ==> HasRoom(c, Run(c, ops).kv, op.host))
  {
    hide HasRoom, Run, ValidHost;
    assert (ops + [op])[..|ops|] == ops;
  }

  /** A guarded history stays guarded with a call of a host that has not recorded the last address of its block. */
  lemma GuardedCall(c: Config, ops: seq<Op>, host: string)
    requires GoodConfig(c) && Proper(c, ops) && Guarded(c, ops) && ValidHost(host)
    requires (Network(Base(c), RankOf(ops, host)) + 255) % TWO_32 !in Recorded(c, ops, host)
    ensures Guarded(c, ops + [UnusedOp(host)])
  {
    hide HasRoom, Run, ValidHost, Network, RankOf, Recorded, Proper, Guarded, InetIP2Int, ParseQuad;
    RoomInInts(c, ops, host);
    GuardedSnoc(c, ops, UnusedOp(host));
  }

  /** A subnet whose first zero octet is the last one (mask 24) gives overlapping networks: three calls collide. */
  lemma LastOctetPoolCollides(c: Config, a: string, b: string)
    requires GoodConfig(c) && ZeroOctet(Base(c)) == 3 && ValidHost(a) && ValidHost(b) && a != b
    ensures var ops := [UnusedOp(a)] + [UnusedOp(a)] + [UnusedOp(b)];
            var ip := InetInt2Ip(Base(c) + 3);
            && Guarded(c, ops) && Proper(c, ops)
            && (a, ip) in Run(c, ops).live && (b, ip) in Run(c, ops).live
  {
    hide Network, ParseQuad, InetIP2Int, InetInt2Ip, ValidHost, ZeroOctet, Run, UnusedKV, Recorded, RankOf, Proper,
         AbsRun, Allocated, Usable, NextInt, Guarded, HasRoom, Seen;
    assert Guarded(c, []) by { GuardedNone(c); }
    FirstNetworks(c);
    StartState(c, a);
    StartState(c, b);
    var base := Base(c);
    SmallAllocations(base);
    RecordedStep(c, [], a, b);
    var ops1 := [UnusedOp(a)];
    assert [] + ops1 == ops1;
    GuardedCall(c, [], a);
    RecordedStep(c, ops1, a, b);
    GuardedCall(c, ops1, a);
    var ops2 := ops1 + [UnusedOp(a)];
    RecordedStep(c, ops2, b, a);
    GuardedCall(c, ops2, b);
    var live := Run(c, ops2).live;
    assert live[|live| - 1] == (a, InetInt2Ip(base + 3));
  }

  lemma GuardedNone(c: Config)
    ensures Guarded(c, [])
  {
  }

  lemma SmallAllocations(base: address)
    requires base % 256 == 0
    ensures Allocated(base, []) == [base + 2]
    ensures Usable(NextInt(base, [base + 2])) == base + 3 && Allocated(base, [base + 2]) == [base + 2, base + 3]
    ensures Usable(NextInt(base + 1, [])) == base + 3
  {
  }

  /** Two hosts whose ranks agree modulo 256 are given the same first address. */
  lemma SharedNetworkCollides(c: Config, ops: seq<Op>, a: string, b: string)
    requires GoodConfig(c) && Proper(c, ops) && ValidHost(a) && ValidHost(b)
    requires RankOf(ops, a) % 256 == RankOf(ops, b) % 256
    requires RecordSeen(c, Run(c, ops).kv, a) == "" && RecordSeen(c, Run(c, ops).kv, b) == ""
    ensures UnusedKV(c, Run(c, ops).kv, a).Some? && UnusedKV(c, Run(c, ops).kv, b).Some?
    ensures UnusedKV(c, Run(c, ops).kv, a).value.0 == UnusedKV(c, Run(c, ops).kv, b).value.0
  {
    hide AbsRun, Network, ParseQuad, InetIP2Int, InetInt2Ip, ValidHost, RankOf, Recorded, Run, Proper, UnusedKV,
         RecordSeen, NetworkSeen, Encode, Quads, Usables, LiveOf, Increasing;
    HostView(c, ops, a);
    HostView(c, ops, b);
    StoreView(c, ops, a);
    StoreView(c, ops, b);
    NetworksDistinct(Base(c), RankOf(ops, a), RankOf(ops, b));
  }

  function Inits(hosts: seq<string>): seq<Op> {
    if hosts == [] then [] else Inits(hosts[..|hosts| - 1]) + [InitOp(hosts[|hosts| - 1])]
  }

  lemma {:induction false} RegisterAll(c: Config, hosts: seq<string>)
    requires GoodConfig(c) && NoDup(hosts) && forall i :: 0 <= i < |hosts| ==> ValidHost(hosts[i])
    ensures Proper(c, Inits(hosts)) && Guarded(c, Inits(hosts)) && Seen(Inits(hosts)) == hosts
    ensures forall h :: Recorded(c, Inits(hosts), h) == []
  {
    hide Run, ParseQuad, InetIP2Int, UnusedKV, ValidHost, Proper, Guarded, Recorded, HasRoom, Seen;
    if hosts == [] {
      RegisterNone(c);
    } else {
      var init, last := hosts[..|hosts| - 1], hosts[|hosts| - 1];
      RegisterAll(c, init);
      RegisterOneMore(c, Inits(init), last);
      assert last !in init;
    }
  }

  lemma RegisterNone(c: Config)
    requires GoodConfig(c)
    ensures Proper(c, []) && Guarded(c, []) && Seen([]) == [] && forall h :: Recorded(c, [], h) == []
  {
  }

  lemma RegisterOneMore(c: Config, ops: seq<Op>, host: string)
    requires GoodConfig(c) && Proper(c, ops) && Guarded(c, ops) && ValidHost(host)
    requires forall h :: Recorded(c, ops, h) == []
    ensures var ops' := ops + [InitOp(host)];
            && Proper(c, ops') && Guarded(c, ops')
            && Seen(ops') == (if host in Seen(ops) then Seen(ops) else Seen(ops) + [host])
            && forall h :: Recorded(c, ops', h) == []
  {
    hide Run, ParseQuad, InetIP2Int, UnusedKV, ValidHost, HasRoom, Represents, Values;
    var ops' := ops + [InitOp(host)];
    assert ops'[..|ops|] == ops;
    RunKeeps(c, ops);
    var a := AbsRun(Base(c), ops);
    PathValues(c, Run(c, ops).kv, a, host);
    assert AbsRun(Base(c), ops') == IpamRefinement.Init(a, host);
    forall h ensures Recorded(c, ops', h) == [] {
      assert Values(IpamRefinement.Init(a, host), h) == Values(a, h) && Recorded(c, ops, h) == [];
    }
  }

  /** 257 hosts are one too many: the first and the last of them are both given the same address. */
  lemma TooManyHostsCollide(c: Config, hosts: seq<string>)
    requires GoodConfig(c) && NoDup(hosts) && |hosts| == 257 && forall i :: 0 <= i < |hosts| ==> ValidHost(hosts[i])
    ensures var ops := Inits(hosts) + [UnusedOp(hosts[0])] + [UnusedOp(hosts[256])];
            var ip := InetInt2Ip(Usable(NextInt(Base(c), [])));
            && Guarded(c, ops) && Proper(c, ops)
            && (hosts[0], ip) in Run(c, ops).live && (hosts[256], ip) in Run(c, ops).live
  {
    hide Run, AbsRun, ParseQuad, InetIP2Int, InetInt2Ip, UnusedKV, ValidHost, Network, Proper, Usable, NextInt,
         Allocated, Inits, Guarded, HasRoom, Recorded, Seen;
    var a, b, ops := hosts[0], hosts[256], Inits(hosts);
    RegisterAll(c, hosts);
    assert hosts[0] == a && hosts[256] == b && a != b;
    assert RankOf(ops, a) == 0 && RankOf(ops, b) == 256;
    GuardedCall(c, ops, a);
    FirstNetworks(c);
    NetworksDistinct(Base(c), 0, 256);
    RecordedStep(c, ops, a, b);
    var ops1 := ops + [UnusedOp(a)];
    assert Recorded(c, ops1, b) == [] && RankOf(ops1, b) == 256;
    GuardedCall(c, ops1, b);
    RecordedStep(c, ops1, b, a);
    var live := Run(c, ops1).live;
    var live' := Run(c, ops1 + [UnusedOp(b)]).live;
    assert live'[|live'| - 1].0 == b && live'[|live| - 1] == live[|live| - 1] && live[|live| - 1].0 == a;
  }

  // --------------------------------------------------- the exact condition

  ghost predicate NoneTwice(live: seq<(string, string)>) {
    forall i, j :: 0 <= i < j < |live| ==> live[i].1 != live[j].1
  }

  /** Every guarded run in which only the given hosts take part is safe. */
  ghost predicate AlwaysSafe(c: Config, hosts: set<string>) {
    forall ops :: Guarded(c, ops) && Named(ops) <= hosts ==> NoneTwice(Run(c, ops).live)
  }

  lemma TwoHolders(live: seq<(string, string)>, a: string, b: string, ip: string)
    requires a != b && (a, ip) in live && (b, ip) in live
    ensures !NoneTwice(live)
  {
    var i :| 0 <= i < |live| && live[i] == (a, ip);
    var j :| 0 <= j < |live| && live[j] == (b, ip);
    assert i != j;
  }

  lemma {:induction false} SubsetSize(s: set<string>, t: set<string>)
    requires s <= t
    ensures |s| <= |t|
  {
    if s != {} {
      var x :| x in s;
      SubsetSize(s - {x}, t - {x});
    }
  }

  lemma {:induction false} Pick(hosts: set<string>, n: nat) returns (picked: seq<string>)
    requires n <= |hosts|
    ensures |picked| == n && NoDup(picked) && forall h :: h in picked ==> h in hosts
  {
    picked := [];
    if n > 0 {
      var h :| h in hosts;
      var rest := Pick(hosts - {h}, n - 1);
      assert h !in rest;
      picked := rest + [h];
    }
  }

  lemma {:induction false} NamedInits(hosts: seq<string>)
    ensures Named(Inits(hosts)) == set h | h in hosts
  {
    if hosts != [] {
      var init, last := hosts[..|hosts| - 1], hosts[|hosts| - 1];
      NamedInits(init);
      NamedSnoc(Inits(init), InitOp(last));
      assert hosts == init + [last];
    } else {
      assert Named([]) == {};
    }
  }

  lemma NamedSnoc(ops: seq<Op>, op: Op)
    ensures Named(ops + [op]) == Named(ops) + {op.host}
  {
    var ops' := ops + [op];
    forall h | h in Named(ops) ensures h in Named(ops') {
      var i :| 0 <= i < |ops| && ops[i].host == h;
      assert ops'[i].host == h;
    }
    assert ops'[|ops|].host == op.host;
  }

  lemma UnsafeOctet(c: Config, hosts: set<string>)
    requires GoodConfig(c) && ZeroOctet(Base(c)) == 3 && |hosts| >= 2 && forall h :: h in hosts ==> ValidHost(h)
    ensures !AlwaysSafe(c, hosts)
  {
    hide Network, ParseQuad, InetIP2Int, InetInt2Ip, ValidHost, ZeroOctet, Run, Proper, Guarded, NoneTwice, Named;
    var picked := Pick(hosts, 2);
    var a, b := picked[0], picked[1];
    assert a in picked && b in picked;
    LastOctetPoolCollides(c, a, b);
    var ops := [UnusedOp(a)] + [UnusedOp(a)] + [UnusedOp(b)];
    TwoHolders(Run(c, ops).live, a, b, InetInt2Ip(Base(c) + 3));
    NamedNone();
    NamedSnoc([], UnusedOp(a));
    NamedSnoc([UnusedOp(a)], UnusedOp(a));
    NamedSnoc([UnusedOp(a)] + [UnusedOp(a)], UnusedOp(b));
    assert [] + [UnusedOp(a)] == [UnusedOp(a)];
    assert Named(ops) <= hosts;
  }

  lemma NamedNone()
    ensures Named([]) == {}
  {
  }

  lemma UnsafeNumber(c: Config, hosts: set<string>)
    requires GoodConfig(c) && |hosts| > 256 && forall h :: h in hosts ==> ValidHost(h)
    ensures !AlwaysSafe(c, hosts)
  {
    hide Network, ParseQuad, InetIP2Int, InetInt2Ip, ValidHost, ZeroOctet, Run, Proper, Guarded, NoneTwice, Named,
         Usable, NextInt, Inits;
    var picked := Pick(hosts, 257);
    assert forall i :: 0 <= i < |picked| ==> picked[i] in picked;
    TooManyHostsCollide(c, picked);
    var a, b := picked[0], picked[256];
    var ops := Inits(picked) + [UnusedOp(a)] + [UnusedOp(b)];
    TwoHolders(Run(c, ops).live, a, b, InetInt2Ip(Usable(NextInt(Base(c), []))));
    NamedInits(picked);
    NamedSnoc(Inits(picked), UnusedOp(a));
    NamedSnoc(Inits(picked) + [UnusedOp(a)], UnusedOp(b));
    assert Named(ops) <= hosts;
  }

  /**
    The conditions are exact: two or more hosts are safe in every guarded run exactly when the pool
    does not count through the last octet and they are at most 256.
   */
  lemma SafeIff(c: Config, hosts: set<string>)
    requires GoodConfig(c) && |hosts| >= 2 && forall h :: h in hosts ==> ValidHost(h)
    ensures (forall ops :: Guarded(c, ops) && Named(ops) <= hosts ==> NoneTwice(Run(c, ops).live)) <==>
            (ZeroOctet(Base(c)) <= 2 && |hosts| <= 256)
  {
    hide Network, ParseQuad, InetIP2Int, InetInt2Ip, ValidHost, Run, Proper, Guarded, Named, HostKey;
    if ZeroOctet(Base(c)) > 2 {
      UnsafeOctet(c, hosts);
    } else if |hosts| > 256 {
      UnsafeNumber(c, hosts);
    } else {
      forall ops | Guarded(c, ops) && Named(ops) <= hosts ensures NoneTwice(Run(c, ops).live) {
        SubsetSize(Named(ops), hosts);
        ClusterSafety(c, ops);
      }
    }
  }
}
