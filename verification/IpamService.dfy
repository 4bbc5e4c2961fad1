/**
  The service object of pkg/ipam/ipam.go working on a shared store. Every method is tied to a
  function from the store before the call to the store after it. A call is one atomic step: the
  mutex of the program is local to a process and orders nothing between hosts.
 */
module IpamService {
  import opened GoStrings
  import opened Options
  import opened InetAddr
  import opened IpamRecord
  import opened IpamStore

  /** The etcd client: a map that never fails. */
  class Etcd {
    var kv: Store

    constructor ()
      ensures kv == map[]
    {
      kv := map[];
    }

    method Get(key: string) returns (value: string)
      ensures value == Read(kv, key)
    {
      value := if key in kv then kv[key] else "";
    }

    method Set(key: string, value: string)
      modifies this
      ensures kv == old(kv)[key := value]
    {
      kv := kv[key := value];
    }
  }

  // -------------------------------------------- effect of the public operations

  function RecordOf(c: Config, kv: Store, host: string): string {
    RecordKey(c, host, Read(kv, HostKey(c, host)))
  }

  function SetIPsKV(c: Config, kv: Store, host: string, ips: seq<string>): Store {
    var kv1 := PathKV(c, kv, host);
    var key := RecordOf(c, kv1, host);
    kv1[key := Appended(Read(kv1, key), ips)]
  }

  function ReleaseKV(c: Config, kv: Store, host: string, ips: seq<string>): Store {
    var kv1 := PathKV(c, kv, host);
    var key := RecordOf(c, kv1, host);
    kv1[key := Released(Read(kv1, key), ips)]
  }

  /** UnusedIP: no result when its loop does not end. */
  function UnusedKV(c: Config, kv: Store, host: string): Option<(string, Store)> {
    var kv1 := PathKV(c, kv, host);
    var key := RecordOf(c, kv1, host);
    match Iterate(Read(kv1, HostKey(c, host)), Read(kv1, key), 3)
    case None => None
    case Some(out) => Some((out.0, kv1[key := out.1]))
  }

  /** What holds of a store written by these operations only. */
  ghost predicate ValidStore(c: Config, kv: Store, host: string) {
    && ValidConfig(c) && InetIP2Int(c.subnet) % 256 == 0 && ValidHost(host) && PoolClean(c, kv)
    && var kv1 := PathKV(c, kv, host);
       Free(Read(kv1, HostKey(c, host)), '/')
  }

  /** Writing a host's record leaves pool and registrations alone. */
  lemma RecordWrite(c: Config, kv: Store, host: string, record: string)
    requires ValidConfig(c) && ValidHost(host) && Settled(c, kv, host) && Free(Read(kv, HostKey(c, host)), '/')
    ensures var kv' := kv[RecordOf(c, kv, host) := record];
            && Settled(c, kv', host) && PathKV(c, kv', host) == kv' && InitKV(c, kv', host) == kv'
            && Read(kv', HostKey(c, host)) == Read(kv, HostKey(c, host))
            && RecordOf(c, kv', host) == RecordOf(c, kv, host)
  {
    hide ParseQuad, HostKey, PoolKey, RecordKey, PoolString;
    var network := Read(kv, HostKey(c, host));
    RecordKeys(c, host, network, host, network);
    var kv' := kv[RecordOf(c, kv, host) := record];
    ReinitHarmless(c, kv', host);
  }

  class IpamService {
    const etcd: Etcd
    const c: Config
    const hostname: string

    constructor (etcd: Etcd, subnet: string, maskSegment: seq<string>, hostname: string)
      ensures this.etcd == etcd && this.hostname == hostname && c == ServiceConfig(subnet, maskSegment)
    {
      hide InetIP2Int, InetInt2Ip, Split;
      this.etcd := etcd;
      this.hostname := hostname;
      var segment := if |maskSegment| > 0 then maskSegment[0] else "";
      var parts := Split(subnet, '/');
      if |parts| > 1 {
        segment := parts[1];
      }
      var maskSize := TWO_16;
      match segment {
        case "8" => maskSize := TWO_24;
        case "24" => maskSize := TWO_8;
        case _ => maskSize := TWO_16;
      }
      var value := InetIP2Int(parts[0]);
      this.c := Config(InetInt2Ip(value - value % maskSize), segment);
    }

    method IPsPoolInit(poolPath: string)
      requires poolPath == PoolKey(c)
      modifies etcd
      ensures etcd.kv == PoolInitKV(c, old(etcd.kv))
    {
      hide Split, Decimal;
      var val := etcd.Get(poolPath);
      if |val| > 0 {
        return;
      }
      var temp := Split(c.subnet, '.');
      var tempIndex := 0;
      var i := 0;
      while i < |temp|
        invariant 0 <= i <= |temp| && tempIndex == 0 && etcd.kv == old(etcd.kv)
        invariant ZeroFrom(temp, 0) == ZeroFrom(temp, i)
      {
        if temp[i] == "0" {
          tempIndex := i;
          break;
        }
        i := i + 1;
      }
      assert tempIndex == ZeroFrom(temp, 0);
      ghost var fields := temp;
      ghost var entries := PoolEntries(fields, 256);
      var pool := "";
      for j := 0 to 256
        invariant |temp| == |fields| && forall k :: 0 <= k < |temp| && k != tempIndex ==> temp[k] == fields[k]
        invariant pool == Join(entries[..j], ';')
        invariant j == 0 <==> pool == ""
        invariant etcd.kv == old(etcd.kv)
      {
        temp := temp[tempIndex := Decimal(j)];
        assert temp == fields[tempIndex := Decimal(j)];
        var newIP := Join(temp, '.');
        PoolStep(entries, j, newIP);
        FieldInJoin(temp, tempIndex);
        ParseDecimal(j);
        pool := if pool == "" then newIP else pool + ";" + newIP;
      }
      assert entries[..256] == entries;
      etcd.Set(poolPath, pool);
    }

    method NetworkInit(hostPath: string, poolPath: string) returns (network: string)
      requires poolPath == PoolKey(c) && hostPath == HostKey(c, hostname)
      modifies etcd
      ensures etcd.kv == NetworkInitKV(c, old(etcd.kv), hostname)
      ensures ValidHost(hostname) ==> network == Read(etcd.kv, HostKey(c, hostname))
    {
      hide Join, Split, HostKey, PoolKey;
      HostKeys(c, hostname, hostname);
      network := etcd.Get(hostPath);
      if network != "" {
        return;
      }
      var pool := etcd.Get(poolPath);
      var tempIPs := Split(pool, ';');
      network := tempIPs[0];
      tempIPs := tempIPs[1..];
      etcd.Set(hostPath, network);
      etcd.Set(poolPath, Join(tempIPs, ';'));
    }

    method GetIpamService()
      modifies etcd
      ensures etcd.kv == InitKV(c, old(etcd.kv), hostname)
    {
      IPsPoolInit(PoolKey(c));
      var network := NetworkInit(HostKey(c, hostname), PoolKey(c));
    }

    method GetHostPath() returns (path: string)
      modifies etcd
      ensures etcd.kv == PathKV(c, old(etcd.kv), hostname) && path == HostKey(c, hostname)
    {
      GetIpamService();
      GetIpamService();
      path := HostKey(c, hostname);
    }

    method GetRecordPath(network: string) returns (path: string)
      modifies etcd
      ensures etcd.kv == PathKV(c, old(etcd.kv), hostname) && path == RecordKey(c, hostname, network)
    {
      var hostPath := GetHostPath();
      path := EtcdPath(hostPath + "/" + network);
    }

    /** The network of this host, the key of its record and the record, as every operation reads them. */
    method ReadRecord() returns (network: string, path: string, record: string)
      requires ValidStore(c, etcd.kv, hostname)
      modifies etcd
      ensures etcd.kv == PathKV(c, old(etcd.kv), hostname)
      ensures network == Read(etcd.kv, HostKey(c, hostname))
      ensures path == RecordOf(c, etcd.kv, hostname) && record == Read(etcd.kv, path)
    {
      hide PathKV, HostKey, RecordKey, ParseQuad, InetIP2Int;
      PathSettles(c, etcd.kv, hostname);
      var hostPath := GetHostPath();
      network := etcd.Get(hostPath);
      path := GetRecordPath(network);
      record := etcd.Get(path);
    }

    method SetIPs(ips: seq<string>)
      requires ValidStore(c, etcd.kv, hostname)
      modifies etcd
      ensures etcd.kv == SetIPsKV(c, old(etcd.kv), hostname, ips)
    {
      hide PathKV, HostKey, RecordKey, ParseQuad, InetIP2Int, Appended;
      PathSettles(c, etcd.kv, hostname);
      var network, _, allUsedIPs := ReadRecord();
      var tempIPs := AppendIPs(allUsedIPs, ips);
      var path := GetRecordPath(network);
      etcd.Set(path, tempIPs);
    }

    method ReleaseIPs(ips: seq<string>)
      requires ValidStore(c, etcd.kv, hostname)
      modifies etcd
      ensures etcd.kv == ReleaseKV(c, old(etcd.kv), hostname, ips)
    {
      hide PathKV, HostKey, RecordKey, ParseQuad, InetIP2Int, Released;
      PathSettles(c, etcd.kv, hostname);
      var network, _, allUsedIPs := ReadRecord();
      var newIPs := IpamRecord.ReleaseIPs(allUsedIPs, ips);
      var path := GetRecordPath(network);
      etcd.Set(path, newIPs);
    }

    method NextUnusedIP() returns (ip: string)
      requires ValidStore(c, etcd.kv, hostname)
      modifies etcd
      ensures etcd.kv == PathKV(c, old(etcd.kv), hostname)
      ensures var record := Read(etcd.kv, RecordOf(c, etcd.kv, hostname));
              ip == InetInt2Ip(NextValue(Read(etcd.kv, HostKey(c, hostname)), record))
    {
      hide PathKV, HostKey, RecordKey, ParseQuad, InetIP2Int, InetInt2Ip, NextValue;
      var network, _, allUsedIPs := ReadRecord();
      ip := IpamRecord.NextUnusedIP(network, allUsedIPs);
    }

    /** The precondition is exactly the absence of the endless loop (IpamRecord.TerminationIff). */
    method UnusedIP() returns (ip: string)
      requires ValidStore(c, etcd.kv, hostname)
      requires UnusedKV(c, etcd.kv, hostname).Some?
      modifies etcd
      ensures UnusedKV(c, old(etcd.kv), hostname) == Some((ip, etcd.kv))
    {
      hide PathKV, HostKey, RecordKey, ParseQuad, InetIP2Int, InetInt2Ip, NextValue, Appended, Iterate, ValidStore,
           RecordOf, SetIPsKV, IsGatewayIP, IsRetainIP, Read;
      ghost var kv1 := PathKV(c, etcd.kv, hostname);
      ghost var network := Read(kv1, HostKey(c, hostname));
      ghost var key := RecordOf(c, kv1, hostname);
      ghost var fuel: nat := 3;
      ghost var record := Read(kv1, key);
      FirstPath(c, etcd.kv, hostname);
      while true
        invariant ValidStore(c, etcd.kv, hostname)
        invariant PathKV(c, etcd.kv, hostname) == if fuel == 3 then kv1 else kv1[key := record]
        invariant fuel == 3 ==> record == Read(kv1, key)
        invariant Iterate(network, record, fuel).Some?
        invariant Iterate(network, record, fuel) == Iterate(network, Read(kv1, key), 3)
        decreases fuel
      {
        ghost var n := NextValue(network, record);
        OneRound(c, kv1, hostname, record, fuel);
        ReservedOctet(n);
        ip := NextUnusedIP();
        SetIPs([ip]);
        record := Appended(record, [ip]);
        fuel := fuel - 1;
        if IsGatewayIP(ip) || IsRetainIP(ip) {
          continue;
        }
        return;
      }
    }
  }

  lemma FirstPath(c: Config, kv: Store, host: string)
    requires ValidStore(c, kv, host)
    ensures var kv1 := PathKV(c, kv, host);
            ValidStore(c, kv1, host) && Settled(c, kv1, host) && PathKV(c, kv1, host) == kv1
  {
    hide ParseQuad, HostKey, PoolKey, PathKV, InitKV, InetIP2Int;
    PathSettles(c, kv, host);
  }

  /** One round of UnusedIP on a settled store: what it proposes and what it leaves behind. */
  lemma OneRound(c: Config, kv1: Store, host: string, record: string, fuel: nat)
    requires ValidStore(c, kv1, host) && Settled(c, kv1, host) && PathKV(c, kv1, host) == kv1
    ensures var network, key := Read(kv1, HostKey(c, host)), RecordOf(c, kv1, host);
            var n := NextValue(network, record);
            var record' := Appended(record, [InetInt2Ip(n)]);
            var cur, next := kv1[key := record], kv1[key := record'];
            && Read(cur, RecordOf(c, cur, host)) == record && Read(cur, HostKey(c, host)) == network
            && ValidStore(c, cur, host) && PathKV(c, cur, host) == cur
            && SetIPsKV(c, cur, host, [InetInt2Ip(n)]) == next
            && (record == Read(kv1, key) ==> SetIPsKV(c, kv1, host, [InetInt2Ip(n)]) == next)
            && ValidStore(c, next, host) && PathKV(c, next, host) == next
            && (fuel > 0 ==> Iterate(network, record, fuel) ==
                             if n % 256 <= 1 then Iterate(network, record', fuel - 1)
                             else Some((InetInt2Ip(n), record')))
            && (Iterate(network, record, fuel).Some? ==> fuel > 0)
  {
    hide ParseQuad, HostKey, PoolKey, RecordKey, PathKV, InitKV, InetIP2Int, InetInt2Ip, NextValue, Appended,
         ValidStore, RecordOf;
    var n := NextValue(Read(kv1, HostKey(c, host)), record);
    RecordWriteValid(c, kv1, host, record);
    RecordWriteValid(c, kv1, host, Appended(record, [InetInt2Ip(n)]));
  }

  lemma RecordWriteValid(c: Config, kv1: Store, host: string, record: string)
    requires ValidStore(c, kv1, host) && Settled(c, kv1, host) && PathKV(c, kv1, host) == kv1
    ensures var kv' := kv1[RecordOf(c, kv1, host) := record];
            && ValidStore(c, kv', host) && PathKV(c, kv', host) == kv'
            && Read(kv', HostKey(c, host)) == Read(kv1, HostKey(c, host))
            && RecordOf(c, kv', host) == RecordOf(c, kv1, host)
  {
    hide ParseQuad, HostKey, PoolKey, RecordKey, PoolString, PathKV, InitKV, InetIP2Int;
    RecordWrite(c, kv1, host, record);
    var network := Read(kv1, HostKey(c, host));
    RecordKeys(c, host, network, host, network);
  }

  lemma FieldInJoin(parts: seq<string>, i: nat)
    requires i < |parts|
    ensures |Join(parts, '.')| >= |parts[i]|
  {
    if |parts| > 1 && i > 0 {
      FieldInJoin(parts[1..], i - 1);
    }
  }

  lemma PoolStep(entries: seq<string>, j: nat, entry: string)
    requires j < |entries| && entries[j] == entry
    ensures Join(entries[..j + 1], ';') == if j == 0 then entry else Join(entries[..j], ';') + ";" + entry
  {
    assert entries[..j + 1] == entries[..j] + [entry];
    JoinSnoc(entries[..j], entry, ';');
  }
}
