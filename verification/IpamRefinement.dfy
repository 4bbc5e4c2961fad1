/**
  The string store refines an abstract allocator: an ordered list of registered hosts and one
  increasing sequence of addresses per host.
 */
module IpamRefinement {
  import opened GoStrings
  import opened InetAddr
  import opened IpamRecord
  import opened IpamStore
  import opened IpamService

  /** drained: the pool has been used up and not yet refilled. */
  datatype Abs = Abs(hosts: seq<string>, drained: bool, recs: map<string, seq<address>>)

  function Base(c: Config): address {
    InetIP2Int(c.subnet)
  }

  predicate GoodConfig(c: Config) {
    ValidConfig(c) && Base(c) % 256 == 0
  }

  function PoolLeft(base: address, a: Abs): seq<address>
    requires base % 256 == 0
  {
    if a.drained then [] else Networks(base, |a.hosts| % 256)
  }

  ghost predicate WellFormed(a: Abs) {
    && NoDup(a.hosts)
    && (forall h :: h in a.recs <==> h in a.hosts)
    && (forall h :: h in a.hosts ==> ValidHost(h))
    && (a.drained ==> |a.hosts| % 256 == 0)
  }

  ghost predicate HostsStored(c: Config, kv: Store, a: Abs)
    requires GoodConfig(c)
  {
    && (forall h :: ValidHost(h) && h !in a.hosts ==> Read(kv, HostKey(c, h)) == "")
    && (forall k :: 0 <= k < |a.hosts| ==> Read(kv, HostKey(c, a.hosts[k])) == InetInt2Ip(Network(Base(c), k)))
  }

  ghost predicate RecordsStored(c: Config, kv: Store, a: Abs)
    requires GoodConfig(c) && WellFormed(a)
  {
    && (forall h, n: address :: ValidHost(h) && h !in a.hosts ==> Read(kv, RecordKey(c, h, InetInt2Ip(n))) == "")
    && (forall k :: 0 <= k < |a.hosts| ==>
          Read(kv, RecordKey(c, a.hosts[k], InetInt2Ip(Network(Base(c), k)))) == Encode(a.recs[a.hosts[k]]))
  }

  ghost predicate Represents(c: Config, kv: Store, a: Abs) {
    && GoodConfig(c) && WellFormed(a)
    && Read(kv, PoolKey(c)) == Encode(PoolLeft(Base(c), a))
    && HostsStored(c, kv, a) && RecordsStored(c, kv, a)
  }

  lemma EmptyStore(c: Config)
    requires GoodConfig(c)
    ensures Represents(c, map[], Abs([], true, map[]))
  {
    hide InetIP2Int, InetInt2Ip, ParseQuad, HostKey, RecordKey, PoolKey;
    EncodeEntries([]);
  }

  // ---------------------------------------------------------- initialisation

  function Refill(a: Abs): Abs {
    a.(drained := false)
  }

  function Register(a: Abs, host: string): Abs {
    if host in a.hosts then a
    else Abs(a.hosts + [host], (|a.hosts| + 1) % 256 == 0, a.recs[host := []])
  }

  function Init(a: Abs, host: string): Abs {
    Register(Refill(a), host)
  }

  /** kv' reads like kv at every host key except perhaps the one of host. */
  ghost predicate SameHosts(c: Config, kv: Store, kv': Store, host: string) {
    forall h :: ValidHost(h) && h != host ==> Read(kv', HostKey(c, h)) == Read(kv, HostKey(c, h))
  }

  ghost predicate SameRecords(c: Config, kv: Store, kv': Store, host: string) {
    forall h, n: address :: h != host ==>
      Read(kv', RecordKey(c, h, InetInt2Ip(n))) == Read(kv, RecordKey(c, h, InetInt2Ip(n)))
  }

  lemma PoolWrite(c: Config, kv: Store, pool: string, host: string)
    requires ValidConfig(c)
    ensures var kv' := kv[PoolKey(c) := pool];
            SameHosts(c, kv, kv', "pool") && SameRecords(c, kv, kv', "pool")
            && forall n: address :: Read(kv', RecordKey(c, "pool", InetInt2Ip(n))) ==
                 Read(kv, RecordKey(c, "pool", InetInt2Ip(n)))
  {
    hide InetIP2Int, InetInt2Ip, ParseQuad, HostKey, RecordKey, PoolKey;
    forall h ensures HostKey(c, h) == PoolKey(c) <==> h == "pool" { HostKeys(c, h, h); }
    forall h, n: address ensures RecordKey(c, h, InetInt2Ip(n)) != PoolKey(c) {
      QuadText(n);
      RecordKeys(c, h, InetInt2Ip(n), h, InetInt2Ip(n));
    }
  }

  lemma HostWrite(c: Config, kv: Store, host: string, network: string)
    requires ValidConfig(c) && ValidHost(host)
    ensures var kv' := kv[HostKey(c, host) := network];
            SameHosts(c, kv, kv', host) && SameRecords(c, kv, kv', "pool")
            && Read(kv', PoolKey(c)) == Read(kv, PoolKey(c))
  {
    hide InetIP2Int, InetInt2Ip, ParseQuad, HostKey, RecordKey, PoolKey;
    HostKeys(c, host, host);
    forall h ensures HostKey(c, h) == HostKey(c, host) <==> h == host { HostKeys(c, h, host); }
    forall h, n: address ensures RecordKey(c, h, InetInt2Ip(n)) != HostKey(c, host) {
      QuadText(n);
      RecordKeys(c, h, InetInt2Ip(n), host, InetInt2Ip(n));
    }
  }

  lemma RecordWriteFrame(c: Config, kv: Store, host: string, network: address, record: string)
    requires ValidConfig(c)
    ensures var kv' := kv[RecordKey(c, host, InetInt2Ip(network)) := record];
            SameHosts(c, kv, kv', "pool") && SameRecords(c, kv, kv', host)
            && Read(kv', PoolKey(c)) == Read(kv, PoolKey(c))
  {
    hide InetIP2Int, InetInt2Ip, ParseQuad, HostKey, RecordKey, PoolKey;
    QuadText(network);
    RecordKeys(c, host, InetInt2Ip(network), host, InetInt2Ip(network));
    forall h ensures HostKey(c, h) != RecordKey(c, host, InetInt2Ip(network)) {
      RecordKeys(c, host, InetInt2Ip(network), h, InetInt2Ip(network));
    }
    forall h, n: address | h != host ensures RecordKey(c, h, InetInt2Ip(n)) != RecordKey(c, host, InetInt2Ip(network)) {
      QuadText(n);
      RecordKeys(c, host, InetInt2Ip(network), h, InetInt2Ip(n));
    }
  }

  lemma HostsFrame(c: Config, kv: Store, kv': Store, a: Abs, a': Abs)
    requires GoodConfig(c) && WellFormed(a) && a'.hosts == a.hosts
    requires HostsStored(c, kv, a) && SameHosts(c, kv, kv', "pool")
    ensures HostsStored(c, kv', a')
  {
    hide InetIP2Int, InetInt2Ip, ParseQuad, HostKey, Network;
    forall k | 0 <= k < |a'.hosts| ensures Read(kv', HostKey(c, a'.hosts[k])) == InetInt2Ip(Network(Base(c), k)) {
      assert a.hosts[k] in a.hosts;
    }
  }

  lemma RecordsFrame(c: Config, kv: Store, kv': Store, a: Abs, a': Abs)
    requires GoodConfig(c) && WellFormed(a) && WellFormed(a') && a'.hosts == a.hosts && a'.recs == a.recs
    requires RecordsStored(c, kv, a) && SameRecords(c, kv, kv', "pool")
    ensures RecordsStored(c, kv', a')
  {
    hide InetIP2Int, InetInt2Ip, ParseQuad, RecordKey, Network, Encode;
    forall k | 0 <= k < |a'.hosts|
      ensures Read(kv', RecordKey(c, a'.hosts[k], InetInt2Ip(Network(Base(c), k)))) == Encode(a'.recs[a'.hosts[k]])
    {
      assert a.hosts[k] in a.hosts;
    }
  }

  lemma RefillRefines(c: Config, kv: Store, a: Abs)
    requires Represents(c, kv, a)
    ensures Represents(c, PoolInitKV(c, kv), Refill(a))
  {
    hide InetIP2Int, InetInt2Ip, ParseQuad, HostKey, RecordKey, PoolKey, PoolString, Encode, Network, HostsStored,
         RecordsStored, SameHosts, SameRecords;
    EncodeEntries(PoolLeft(Base(c), a));
    PoolIsNetworks(c.subnet);
    PoolWrite(c, kv, PoolString(c.subnet), "");
    var kv' := PoolInitKV(c, kv);
    if kv' == kv {
      HostsStays(c, kv, a, Refill(a));
    } else {
      HostsFrame(c, kv, kv', a, Refill(a));
      RecordsFrame(c, kv, kv', a, Refill(a));
    }
  }

  lemma HostsStays(c: Config, kv: Store, a: Abs, a': Abs)
    requires GoodConfig(c) && WellFormed(a) && WellFormed(a') && a'.hosts == a.hosts && a'.recs == a.recs
    requires HostsStored(c, kv, a) && RecordsStored(c, kv, a)
    ensures HostsStored(c, kv, a') && RecordsStored(c, kv, a')
  {
    hide InetIP2Int, InetInt2Ip, ParseQuad, RecordKey, HostKey, Network, Encode;
  }

  lemma PoolHead(base: address, first: nat)
    requires base % 256 == 0 && first < 256
    ensures var pool := Split(Encode(Networks(base, first)), ';');
            pool[0] == InetInt2Ip(Network(base, first)) && Join(pool[1..], ';') == Encode(Networks(base, first + 1))
  {
    hide InetInt2Ip, Network, Split, Join;
    EncodeEntries(Networks(base, first));
    var pool := Split(Encode(Networks(base, first)), ';');
    assert pool == Quads(Networks(base, first));
    assert pool[1..] == Quads(Networks(base, first + 1));
  }

  lemma RegisterHosts(c: Config, kv: Store, kv': Store, a: Abs, host: string)
    requires GoodConfig(c) && WellFormed(a) && host !in a.hosts
    requires HostsStored(c, kv, a) && SameHosts(c, kv, kv', host)
    requires Read(kv', HostKey(c, host)) == InetInt2Ip(Network(Base(c), |a.hosts|))
    ensures HostsStored(c, kv', Register(a, host))
  {
    hide InetIP2Int, InetInt2Ip, ParseQuad, HostKey, Network;
    var a' := Register(a, host);
    forall k | 0 <= k < |a'.hosts|
      ensures Read(kv', HostKey(c, a'.hosts[k])) == InetInt2Ip(Network(Base(c), k))
    {
      if k < |a.hosts| {
        assert a'.hosts[k] == a.hosts[k] && a.hosts[k] in a.hosts;
      }
    }
  }

  lemma RegisterRecords(c: Config, kv: Store, kv': Store, a: Abs, host: string)
    requires GoodConfig(c) && WellFormed(a) && ValidHost(host) && host !in a.hosts && WellFormed(Register(a, host))
    requires RecordsStored(c, kv, a) && SameRecords(c, kv, kv', "pool")
    ensures RecordsStored(c, kv', Register(a, host))
  {
    hide InetIP2Int, InetInt2Ip, ParseQuad, RecordKey, Network, Encode;
    EncodeEntries([]);
    var a' := Register(a, host);
    forall k | 0 <= k < |a'.hosts|
      ensures Read(kv', RecordKey(c, a'.hosts[k], InetInt2Ip(Network(Base(c), k)))) == Encode(a'.recs[a'.hosts[k]])
    {
      if k < |a.hosts| {
        assert a'.hosts[k] == a.hosts[k] && a.hosts[k] in a.hosts;
      } else {
        assert Read(kv, RecordKey(c, host, InetInt2Ip(Network(Base(c), k)))) == "";
      }
    }
  }

  lemma RegisterRefines(c: Config, kv: Store, a: Abs, host: string)
    requires Represents(c, kv, a) && !a.drained && ValidHost(host)
    ensures Represents(c, NetworkInitKV(c, kv, host), Register(a, host))
  {
    hide InetIP2Int, InetInt2Ip, ParseQuad, HostKey, RecordKey, PoolKey, Encode, Split, Join, Network, HostsStored,
         RecordsStored, WellFormed, PoolLeft, ValidHost;
    if host in a.hosts {
      RegisteredKey(c, kv, a, host);
    } else {
      RegisterNew(c, kv, a, host);
    }
  }

  lemma RegisterNew(c: Config, kv: Store, a: Abs, host: string)
    requires Represents(c, kv, a) && !a.drained && ValidHost(host) && host !in a.hosts
    ensures Represents(c, NetworkInitKV(c, kv, host), Register(a, host))
  {
    hide InetIP2Int, InetInt2Ip, ParseQuad, HostKey, RecordKey, PoolKey, Encode, Split, Join, Network, HostsStored,
         RecordsStored, SameHosts, SameRecords, WellFormed, Networks, ValidHost;
    var base, n := Base(c), |a.hosts|;
    UnregisteredKey(c, kv, a, host);
    PoolHead(base, n % 256);
    SameNetwork(base, n);
    var net, rest := InetInt2Ip(Network(base, n)), Encode(Networks(base, n % 256 + 1));
    var kv1 := kv[HostKey(c, host) := net];
    var kv2 := kv1[PoolKey(c) := rest];
    HostWrite(c, kv, host, net);
    PoolWrite(c, kv1, rest, host);
    FramesCompose(c, kv, kv1, kv2, host);
    HostKeptByPool(c, kv1, rest, host);
    RegisterShape(base, a, host);
    RegisterHosts(c, kv, kv2, a, host);
    RegisterRecords(c, kv, kv2, a, host);
    assert NetworkInitKV(c, kv, host) == kv2;
  }

  lemma HostKeptByPool(c: Config, kv: Store, pool: string, host: string)
    requires ValidHost(host)
    ensures Read(kv[PoolKey(c) := pool], HostKey(c, host)) == Read(kv, HostKey(c, host))
    ensures PoolKey(c) != HostKey(c, host)
  {
    hide HostKey, PoolKey;
    HostKeys(c, host, host);
  }

  lemma RegisterShape(base: address, a: Abs, host: string)
    requires base % 256 == 0 && WellFormed(a) && ValidHost(host) && host !in a.hosts
    ensures WellFormed(Register(a, host))
    ensures PoolLeft(base, Register(a, host)) == Networks(base, |a.hosts| % 256 + 1)
  {
    hide Network, Networks;
    RegisterPool(base, |a.hosts|);
    hide PoolLeft;
    var a' := Register(a, host);
    assert forall k :: 0 <= k < |a.hosts| ==> a.hosts[k] in a.hosts && a'.hosts[k] == a.hosts[k];
  }

  /** The pool after the k-th registration; after a full round nothing is left. */
  lemma RegisterPool(base: address, k: nat)
    requires base % 256 == 0
    ensures k % 256 + 1 == 256 <==> (k + 1) % 256 == 0
    ensures k % 256 + 1 < 256 ==> (k + 1) % 256 == k % 256 + 1
    ensures Networks(base, 256) == []
  {
    hide Network;
  }

  lemma FramesCompose(c: Config, kv: Store, kv1: Store, kv2: Store, host: string)
    requires SameHosts(c, kv, kv1, host) && SameHosts(c, kv1, kv2, "pool")
    requires SameRecords(c, kv, kv1, "pool") && SameRecords(c, kv1, kv2, "pool")
    ensures SameHosts(c, kv, kv2, host) && SameRecords(c, kv, kv2, "pool")
  {
    hide InetInt2Ip, RecordKey, HostKey;
  }

  lemma RegisteredKey(c: Config, kv: Store, a: Abs, host: string)
    requires GoodConfig(c) && WellFormed(a) && HostsStored(c, kv, a) && host in a.hosts
    ensures Read(kv, HostKey(c, host)) != ""
  {
    hide InetIP2Int, InetInt2Ip, ParseQuad, HostKey, Network;
    var k :| 0 <= k < |a.hosts| && a.hosts[k] == host;
    QuadText(Network(Base(c), k));
  }

  lemma UnregisteredKey(c: Config, kv: Store, a: Abs, host: string)
    requires GoodConfig(c) && HostsStored(c, kv, a) && host !in a.hosts && ValidHost(host)
    ensures Read(kv, HostKey(c, host)) == ""
  {
  }

  lemma SameNetwork(base: address, n: nat)
    requires base % 256 == 0
    ensures Network(base, n % 256) == Network(base, n)
  {
  }

  lemma InitRefines(c: Config, kv: Store, a: Abs, host: string)
    requires Represents(c, kv, a) && ValidHost(host)
    ensures Represents(c, InitKV(c, kv, host), Init(a, host))
  {
    hide Represents, PoolInitKV, NetworkInitKV, ValidHost;
    RefillRefines(c, kv, a);
    RegisterRefines(c, PoolInitKV(c, kv), Refill(a), host);
  }

  /** What getHostPath leaves: the host registered and the pool refilled. */
  function Path(a: Abs, host: string): Abs {
    Init(Init(a, host), host)
  }

  lemma PathRefines(c: Config, kv: Store, a: Abs, host: string)
    requires Represents(c, kv, a) && ValidHost(host)
    ensures Represents(c, PathKV(c, kv, host), Path(a, host))
    ensures !Path(a, host).drained && host in Path(a, host).hosts
  {
    hide Represents, InitKV, ValidHost;
    InitRefines(c, kv, a, host);
    InitRefines(c, InitKV(c, kv, host), Init(a, host), host);
  }

  // ------------------------------------------------------------- record steps

  function Rank(hosts: seq<string>, host: string): (k: nat)
    requires host in hosts
    ensures k < |hosts| && hosts[k] == host
  {
    if hosts[|hosts| - 1] == host then |hosts| - 1
    else
      assert hosts == hosts[..|hosts| - 1] + [hosts[|hosts| - 1]];
      Rank(hosts[..|hosts| - 1], host)
  }

  /** The network of a registered host. */
  function NetworkOf(base: address, a: Abs, host: string): address
    requires base % 256 == 0 && host in a.hosts
  {
    Network(base, Rank(a.hosts, host))
  }

  lemma StoredRecord(c: Config, kv: Store, a: Abs, host: string)
    requires Represents(c, kv, a) && host in a.hosts
    ensures Read(kv, HostKey(c, host)) == InetInt2Ip(NetworkOf(Base(c), a, host))
    ensures RecordOf(c, kv, host) == RecordKey(c, host, InetInt2Ip(NetworkOf(Base(c), a, host)))
    ensures Read(kv, RecordOf(c, kv, host)) == Encode(a.recs[host])
  {
    hide InetIP2Int, InetInt2Ip, ParseQuad, HostKey, RecordKey, PoolKey, Encode, Network;
    var k := Rank(a.hosts, host);
    assert a.hosts[k] == host;
  }

  function WithRecord(a: Abs, host: string, values: seq<address>): Abs {
    a.(recs := a.recs[host := values])
  }

  lemma WriteRecords(c: Config, kv: Store, kv': Store, a: Abs, host: string, values: seq<address>)
    requires GoodConfig(c) && WellFormed(a) && host in a.hosts && WellFormed(WithRecord(a, host, values))
    requires RecordsStored(c, kv, a) && SameRecords(c, kv, kv', host)
    requires Read(kv', RecordKey(c, host, InetInt2Ip(NetworkOf(Base(c), a, host)))) == Encode(values)
    ensures RecordsStored(c, kv', WithRecord(a, host, values))
  {
    hide InetIP2Int, InetInt2Ip, ParseQuad, RecordKey, Network, Encode;
    var a' := WithRecord(a, host, values);
    forall k | 0 <= k < |a'.hosts|
      ensures Read(kv', RecordKey(c, a'.hosts[k], InetInt2Ip(Network(Base(c), k)))) == Encode(a'.recs[a'.hosts[k]])
    {
      if a.hosts[k] == host {
        assert k == Rank(a.hosts, host);
      }
    }
  }

  lemma WriteRefines(c: Config, kv: Store, a: Abs, host: string, values: seq<address>)
    requires Represents(c, kv, a) && host in a.hosts
    ensures Represents(c, kv[RecordOf(c, kv, host) := Encode(values)], WithRecord(a, host, values))
  {
    hide InetIP2Int, InetInt2Ip, ParseQuad, HostKey, RecordKey, PoolKey, Encode, Network, RecordOf, PoolLeft,
         HostsStored, RecordsStored, SameHosts, SameRecords;
    StoredRecord(c, kv, a, host);
    var base, key := Base(c), RecordOf(c, kv, host);
    var kv', a' := kv[key := Encode(values)], WithRecord(a, host, values);
    RecordWriteFrame(c, kv, host, NetworkOf(base, a, host), Encode(values));
    PoolLeftSame(base, a, a');
    HostsFrame(c, kv, kv', a, a');
    WriteRecords(c, kv, kv', a, host, values);
  }

  lemma PoolLeftSame(base: address, a: Abs, a': Abs)
    requires base % 256 == 0 && a'.hosts == a.hosts && a'.drained == a.drained
    ensures PoolLeft(base, a') == PoolLeft(base, a)
  {
  }

  function Unused(base: address, a: Abs, host: string): Abs
    requires base % 256 == 0
  {
    var a1 := Path(a, host);
    if host !in a1.recs || host !in a1.hosts then a1
    else WithRecord(a1, host, Allocated(NetworkOf(base, a1, host), a1.recs[host]))
  }

  function NewAddress(base: address, a: Abs, host: string): address
    requires base % 256 == 0
  {
    var a1 := Path(a, host);
    if host !in a1.recs || host !in a1.hosts then 0
    else Usable(NextInt(NetworkOf(base, a1, host), a1.recs[host]))
  }

  /** UnusedIP on the store is the abstract allocation: same address, related stores. */
  lemma UnusedRefines(c: Config, kv: Store, a: Abs, host: string)
    requires Represents(c, kv, a) && ValidHost(host)
    ensures UnusedKV(c, kv, host).Some? <==> !(host in a.recs && TWO_32 - 1 in a.recs[host])
    ensures UnusedKV(c, kv, host).Some? ==>
              UnusedKV(c, kv, host).value.0 == InetInt2Ip(NewAddress(Base(c), a, host))
              && Represents(c, UnusedKV(c, kv, host).value.1, Unused(Base(c), a, host))
  {
    hide Represents, PathKV, ValidHost, Encode, Network, InetInt2Ip, InetIP2Int, Allocated, NextInt, Usable, Iterate,
         CanAllocate, NextValue, RecordOf, HostKey;
    PathRefines(c, kv, a, host);
    var kv1, a1 := PathKV(c, kv, host), Path(a, host);
    KnownHost(c, kv1, a1, host);
    var base := Base(c);
    StoredRecord(c, kv1, a1, host);
    var values := a1.recs[host];
    PathRecord(c, kv, a, host);
    var network := NetworkOf(base, a1, host);
    NextRefines(network, values);
    if TWO_32 - 1 in values {
      TerminationIff(InetInt2Ip(network), Encode(values));
      assert Iterate(InetInt2Ip(network), Encode(values), 3).None?;
    } else {
      AllocationRefines(network, values);
      WriteRefines(c, kv1, a1, host, Allocated(network, values));
    }
  }

  lemma KnownHost(c: Config, kv: Store, a: Abs, host: string)
    requires Represents(c, kv, a)
    ensures host in a.hosts <==> host in a.recs
    ensures GoodConfig(c)
  {
  }

  lemma PathRecord(c: Config, kv: Store, a: Abs, host: string)
    requires Represents(c, kv, a)
    ensures var a1 := Path(a, host);
            host in a1.recs && a1.recs[host] == if host in a.recs then a.recs[host] else []
    ensures forall h :: h != host ==>
              (h in Path(a, host).recs <==> h in a.recs)
              && (h in a.recs ==> Path(a, host).recs[h] == a.recs[h])
  {
  }

  function Release(a: Abs, host: string, ips: seq<string>): Abs {
    var a1 := Path(a, host);
    if host !in a1.recs then a1 else WithRecord(a1, host, Remove(a1.recs[host], ips))
  }

  lemma ReleaseKVRefines(c: Config, kv: Store, a: Abs, host: string, ips: seq<string>)
    requires Represents(c, kv, a) && ValidHost(host)
    ensures Represents(c, ReleaseKV(c, kv, host, ips), Release(a, host, ips))
  {
    hide Represents, PathKV, ValidHost, Encode, Network, InetInt2Ip, InetIP2Int, Remove, Released, RecordOf, HostKey;
    PathRefines(c, kv, a, host);
    var kv1, a1 := PathKV(c, kv, host), Path(a, host);
    KnownHost(c, kv1, a1, host);
    StoredRecord(c, kv1, a1, host);
    ReleaseRefines(a1.recs[host], ips);
    WriteRefines(c, kv1, a1, host, Remove(a1.recs[host], ips));
  }
}
