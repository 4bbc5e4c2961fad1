/**
  The shared key/value store of the IPAM: key layout, the pool of networks, and what one call of
  _GetIpamService does to the store (pool initialisation, then host registration). An absent key
  reads as the empty string.
 */
module IpamStore {
  import opened GoStrings
  import opened Options
  import opened InetAddr
  import opened IpamRecord

  type Store = map<string, string>

  function Read(kv: Store, key: string): string {
    if key in kv then kv[key] else ""
  }

  // ------------------------------------------------------------------- keys

  const PREFIX := "edgemesh/ipam"

  function EtcdPath(path: string): string {
    if path != "" && path[0] == '/' then "/" + PREFIX + path else "/" + PREFIX + "/" + path
  }

  datatype Config = Config(subnet: string, mask: string)

  function PoolKey(c: Config): string {
    EtcdPath("/" + c.subnet + "/" + c.mask + "/" + "pool")
  }

  function HostKey(c: Config, host: string): string {
    EtcdPath("/" + c.subnet + "/" + c.mask + "/" + host)
  }

  function RecordKey(c: Config, host: string, network: string): string {
    EtcdPath(HostKey(c, host) + "/" + network)
  }

  predicate ValidConfig(c: Config) {
    ParseQuad(c.subnet).Some?
  }

  lemma CancelPrefix(p: string, a: string, b: string)
    ensures p + a == p + b <==> a == b
  {
    assert (p + a)[|p|..] == a && (p + b)[|p|..] == b;
  }

  lemma LastSegment(a: string, x: string, b: string, y: string)
    requires Free(x, '/') && Free(y, '/') && a + "/" + x == b + "/" + y
    ensures a == b && x == y
  {
    var s := a + "/" + x;
    assert s[|a|] == '/' && s[|b|] == '/';
    assert forall i :: |a| < i < |s| ==> s[i] == x[i - |a| - 1];
    assert forall i :: |b| < i < |s| ==> s[i] == y[i - |b| - 1];
    assert |a| == |b|;
    assert s[..|a|] == a && s[..|b|] == b && s[|a| + 1..] == x && s[|b| + 1..] == y;
  }

  function HostPrefix(c: Config): string {
    "/" + PREFIX + "/" + c.subnet + "/" + c.mask + "/"
  }

  lemma KeyShapes(c: Config, host: string, network: string)
    ensures HostKey(c, host) == HostPrefix(c) + host && PoolKey(c) == HostPrefix(c) + "pool"
    ensures RecordKey(c, host, network) == "/" + PREFIX + HostPrefix(c) + host + "/" + network
  {
    assert ("/" + c.subnet + "/" + c.mask + "/" + host)[0] == '/';
    assert ("/" + c.subnet + "/" + c.mask + "/" + "pool")[0] == '/';
    assert HostKey(c, host) == HostPrefix(c) + host;
    assert (HostKey(c, host) + "/" + network)[0] == '/';
  }

  /** The keys written out. The key of a record carries the prefix twice. */
  lemma KeysWritten(c: Config, host: string, network: string)
    ensures PoolKey(c) == "/edgemesh/ipam/" + c.subnet + "/" + c.mask + "/pool"
    ensures HostKey(c, host) == "/edgemesh/ipam/" + c.subnet + "/" + c.mask + "/" + host
    ensures RecordKey(c, host, network) ==
            "/edgemesh/ipam" + "/edgemesh/ipam/" + c.subnet + "/" + c.mask + "/" + host + "/" + network
  {
    hide EtcdPath, HostKey, PoolKey, RecordKey;
    KeyShapes(c, host, network);
    PrefixWritten(c);
    hide HostPrefix;
    var front := "/edgemesh/ipam/" + c.subnet + "/" + c.mask;
    assert front + "/" + "pool" == front + "/pool";
    assert "/" + PREFIX == "/edgemesh/ipam";
  }

  lemma PrefixWritten(c: Config)
    ensures HostPrefix(c) == "/edgemesh/ipam/" + c.subnet + "/" + c.mask + "/"
  {
    assert "/" + PREFIX + "/" == "/edgemesh/ipam/";
  }

  /** Host keys are one per host name, and only a host called "pool" meets the pool's key. */
  lemma HostKeys(c: Config, host: string, other: string)
    ensures HostKey(c, host) == HostKey(c, other) <==> host == other
    ensures HostKey(c, host) == PoolKey(c) <==> host == "pool"
  {
    hide EtcdPath, HostPrefix, HostKey, PoolKey;
    KeyShapes(c, host, "");
    KeyShapes(c, other, "");
    CancelPrefix(HostPrefix(c), host, other);
    CancelPrefix(HostPrefix(c), host, "pool");
  }

  /** A record key belongs to one host and network and is never a host key or the pool's key. */
  lemma RecordKeys(c: Config, host: string, network: string, other: string, network': string)
    requires ValidConfig(c) && Free(network, '/') && Free(network', '/')
    ensures RecordKey(c, host, network) != HostKey(c, other) && RecordKey(c, host, network) != PoolKey(c)
    ensures RecordKey(c, host, network) == RecordKey(c, other, network') <==> host == other && network == network'
  {
    hide EtcdPath, HostKey, PoolKey, RecordKey, ParseQuad, InetIP2Int, InetInt2Ip;
    KeyShapes(c, host, network);
    KeyShapes(c, other, network');
    SubnetText(c);
    var top := "/" + PREFIX + "/";
    assert RecordKey(c, host, network)[|top|] == 'e';
    assert HostPrefix(c)[|top|] == c.subnet[0];
    if RecordKey(c, host, network) == RecordKey(c, other, network') {
      var front := "/" + PREFIX + HostPrefix(c);
      LastSegment(front + host, network, front + other, network');
      CancelPrefix(front, host, other);
    }
  }

  lemma SubnetText(c: Config)
    requires ValidConfig(c)
    ensures c.subnet != "" && IsDigit(c.subnet[0]) && c.subnet == InetInt2Ip(InetIP2Int(c.subnet))
  {
    hide ParseQuad, InetIP2Int, InetInt2Ip;
    QuadCanonical(c.subnet);
    QuadText(InetIP2Int(c.subnet));
  }

  // ------------------------------------------------------------------- pool

  /** Index of the first field equal to "0" at or after i; 0 when there is none. */
  function ZeroFrom(fields: seq<string>, i: nat): (z: nat)
    ensures fields != [] ==> z < |fields|
    decreases |fields| - i
  {
    if i >= |fields| then 0 else if fields[i] == "0" then i else ZeroFrom(fields, i + 1)
  }

  function PoolEntries(fields: seq<string>, n: nat): seq<string>
    requires fields != [] && n <= 256
  {
    var z := ZeroFrom(fields, 0);
    seq(n, j requires 0 <= j < n => Join(fields[z := Decimal(j)], '.'))
  }

  /** The pool string _IPsPoolInit writes for a subnet. */
  function PoolString(subnet: string): string {
    Join(PoolEntries(Split(subnet, '.'), 256), ';')
  }

  /** The octet of the subnet that the pool counts through. */
  function ZeroOctet(base: address): nat {
    if ByteAt(base, 0) == 0 then 0 else if ByteAt(base, 1) == 0 then 1 else if ByteAt(base, 2) == 0 then 2 else 3
  }

  function Step(base: address): nat {
    match ZeroOctet(base)
    case 0 => TWO_24
    case 1 => TWO_16
    case 2 => TWO_8
    case _ => 1
  }

  /** The network that the k-th registration takes; registrations wrap around after 256. */
  function Network(base: address, k: nat): address
    requires base % 256 == 0
  {
    NetworkRange(base, k % 256);
    base + (k % 256) * Step(base)
  }

  lemma NetworkRange(base: address, j: nat)
    requires base % 256 == 0 && j < 256
    ensures base + j * Step(base) < TWO_32
    ensures forall i :: 0 <= i < 4 ==>
              ByteAt(base + j * Step(base), i) == if i == ZeroOctet(base) then j else ByteAt(base, i)
  {
    hide ByteAt;
    var b0, b1, b2 := ByteAt(base, 0), ByteAt(base, 1), ByteAt(base, 2);
    BytesOf(base);
    assert base == b0 * TWO_24 + b1 * TWO_16 + b2 * TWO_8;
    BytesUnique(b0, b1, b2, 0);
    match ZeroOctet(base) {
      case 0 => BytesUnique(j, b1, b2, 0);
      case 1 => BytesUnique(b0, j, b2, 0);
      case 2 => BytesUnique(b0, b1, j, 0);
      case _ => BytesUnique(b0, b1, b2, j);
    }
  }

  function Networks(base: address, first: nat): seq<address>
    requires base % 256 == 0 && first <= 256
  {
    seq<address>(256 - first, j requires 0 <= j < 256 - first => Network(base, first + j))
  }

  lemma ZeroField(base: address)
    requires base % 256 == 0
    ensures ZeroFrom(Fields(base), 0) == ZeroOctet(base)
  {
    forall i | 0 <= i < 4 ensures Fields(base)[i] == "0" <==> ByteAt(base, i) == 0 {
      ParseDecimal(ByteAt(base, i));
      assert Decimal(0) == "0" && ParseOctet("0") == Some(0);
    }
    hide Decimal, ParseOctet;
    var f := Fields(base);
    assert ZeroFrom(f, 3) == 3;
    assert ZeroFrom(f, 2) == if f[2] == "0" then 2 else 3;
    assert ZeroFrom(f, 1) == if f[1] == "0" then 1 else ZeroFrom(f, 2);
  }

  /** The generated pool is exactly the 256 networks counted in the first zero octet. */
  lemma PoolIsNetworks(subnet: string)
    requires ParseQuad(subnet).Some? && InetIP2Int(subnet) % 256 == 0
    ensures PoolString(subnet) == Encode(Networks(InetIP2Int(subnet), 0))
  {
    hide ParseQuad, InetIP2Int, Decimal, Split, Join, ByteAt, ZeroFrom;
    var base := InetIP2Int(subnet);
    QuadCanonical(subnet);
    FieldsOfQuad(base);
    ZeroField(base);
    var entries := PoolEntries(Fields(base), 256);
    forall j | 0 <= j < 256 ensures entries[j] == Quads(Networks(base, 0))[j] {
      NetworkRange(base, j);
      assert Fields(base)[ZeroOctet(base) := Decimal(j)] == Fields(Network(base, j));
    }
    assert entries == Quads(Networks(base, 0));
  }

  /** Two registrations get the same network exactly when their ranks agree modulo 256. */
  lemma NetworksDistinct(base: address, i: nat, k: nat)
    requires base % 256 == 0
    ensures Network(base, i) == Network(base, k) <==> i % 256 == k % 256
    ensures ZeroOctet(base) <= 2 && i % 256 != k % 256 ==>
              Network(base, i) + 256 <= Network(base, k) || Network(base, k) + 256 <= Network(base, i)
    ensures ZeroOctet(base) <= 2 ==> Network(base, i) % 256 == 0
  {
    hide ByteAt, ZeroOctet;
    var x, y := i % 256, k % 256;
    match ZeroOctet(base) {
      case 0 => assert Step(base) == TWO_24 && Network(base, i) == base + x * TWO_24;
      case 1 => assert Step(base) == TWO_16 && Network(base, i) == base + x * TWO_16;
      case 2 => assert Step(base) == TWO_8 && Network(base, i) == base + x * TWO_8;
      case _ => assert Step(base) == 1 && Network(base, i) == base + x;
    }
  }

  /** Number of addresses under the masks the service knows; every other segment means 16. */
  function MaskSize(segment: string): address {
    if segment == "8" then TWO_24 else if segment == "24" then TWO_8 else TWO_16
  }

  /** Configuration built by _GetIpamService: "a.b.c.d/m" overrides the segment, the host part is masked off. */
  function ServiceConfig(subnet: string, maskSegment: seq<string>): Config {
    var parts := Split(subnet, '/');
    var segment := if |parts| > 1 then parts[1] else if |maskSegment| > 0 then maskSegment[0] else "";
    var value := InetIP2Int(parts[0]);
    Config(InetInt2Ip(value - value % MaskSize(segment)), segment)
  }

  lemma ServiceConfigValid(subnet: string, maskSegment: seq<string>)
    ensures var c := ServiceConfig(subnet, maskSegment);
            && ValidConfig(c) && InetIP2Int(c.subnet) % MaskSize(c.mask) == 0 && InetIP2Int(c.subnet) % 256 == 0
            && (c.mask != "24" ==> ZeroOctet(InetIP2Int(c.subnet)) <= 2)
  {
    hide InetIP2Int, InetInt2Ip, ParseQuad, Split;
    var parts := Split(subnet, '/');
    var segment := if |parts| > 1 then parts[1] else if |maskSegment| > 0 then maskSegment[0] else "";
    var value := InetIP2Int(parts[0]);
    MaskOff(value, segment);
    QuadRoundTrip(value - value % MaskSize(segment));
  }

  /** The part of a subnet text before its first slash, and what stands between the first and the second. */
  ghost predicate Writes(subnet: string, text: string, mask: string) {
    '/' !in text && '/' !in mask
    && (subnet == text + "/" + mask || exists rest: string :: subnet == text + "/" + mask + "/" + rest)
  }

  /**
    The mask after a slash in the subnet decides over the argument, which decides without one; mask 8
    keeps 8 bits of the address asked for, 24 keeps 24, and everything else, no mask included, 16.
   */
  lemma ServiceConfigChosen(subnet: string, maskSegment: seq<string>, text: string, mask: string)
    requires Writes(subnet, text, mask)
             || (subnet == text && '/' !in subnet && mask == if maskSegment == [] then "" else maskSegment[0])
    ensures var c := ServiceConfig(subnet, maskSegment);
            var base, asked := InetIP2Int(c.subnet), InetIP2Int(text);
            && c.mask == mask
            && (mask == "8" ==> base % 16777216 == 0 && base <= asked < base + 16777216)
            && (mask == "24" ==> base % 256 == 0 && base <= asked < base + 256)
            && (mask != "8" && mask != "24" ==> base % 65536 == 0 && base <= asked < base + 65536)
  {
    hide InetIP2Int, InetInt2Ip, ParseQuad, Split;
    if Writes(subnet, text, mask) {
      PartsWithMask(subnet, text, mask);
    } else {
      SplitSingle(subnet, '/');
    }
    var asked := InetIP2Int(text);
    MaskOff(asked, mask);
    QuadRoundTrip(asked - asked % MaskSize(mask));
  }

  lemma PartsWithMask(subnet: string, text: string, mask: string)
    requires Writes(subnet, text, mask)
    ensures var parts := Split(subnet, '/');
            |parts| > 1 && parts[0] == text && parts[1] == mask
  {
    hide Split;
    if subnet == text + "/" + mask {
      SplitHead(text, mask, '/');
      SplitSingle(mask, '/');
      assert subnet == text + ['/'] + mask;
    } else {
      var rest: string :| subnet == text + "/" + mask + "/" + rest;
      SplitHead(text, mask + ['/'] + rest, '/');
      SplitHead(mask, rest, '/');
      assert subnet == text + ['/'] + (mask + ['/'] + rest);
    }
  }

  lemma QuadValue(a: octet, b: octet, c: octet, d: octet)
    ensures var v: int := 16777216 * a as int + 65536 * b as int + 256 * c as int + d as int;
            var text := Decimal(a) + "." + Decimal(b) + "." + Decimal(c) + "." + Decimal(d);
            0 <= v < TWO_32 && '/' !in text && InetInt2Ip(v) == text && InetIP2Int(text) == v
  {
    hide InetIP2Int, InetInt2Ip, ParseQuad, Decimal;
    var v: int := 16777216 * a as int + 65536 * b as int + 256 * c as int + d as int;
    QuadLayout(a, b, c, d);
    QuadRoundTrip(v);
    QuadText(v);
  }

  lemma ConfigText(c: Config, base: address, text: string)
    requires ValidConfig(c) && InetIP2Int(c.subnet) == base && InetInt2Ip(base) == text
    ensures c.subnet == text
  {
    QuadCanonical(c.subnet);
  }

  /** The pod subnet 10.244.0.0 without a mask, and with a mask that the text overrides. */
  lemma ExampleConfigs()
    ensures ServiceConfig("10.244.0.0", []) == Config("10.244.0.0", "")
    ensures ServiceConfig("10.244.7.9/24", ["8"]) == Config("10.244.7.0", "24")
  {
    hide InetIP2Int, InetInt2Ip, ParseQuad, Split, ServiceConfig;
    ExampleTexts();
    ServiceConfigChosen("10.244.0.0", [], "10.244.0.0", "");
    ServiceConfigValid("10.244.0.0", []);
    ConfigText(ServiceConfig("10.244.0.0", []), 0x0af40000, "10.244.0.0");
    assert "10.244.7.9/24" == "10.244.7.9" + "/" + "24";
    ServiceConfigChosen("10.244.7.9/24", ["8"], "10.244.7.9", "24");
    ServiceConfigValid("10.244.7.9/24", ["8"]);
    ConfigText(ServiceConfig("10.244.7.9/24", ["8"]), 0x0af40700, "10.244.7.0");
  }

  lemma ExampleTexts()
    ensures InetInt2Ip(0x0af40000) == "10.244.0.0" && InetIP2Int("10.244.0.0") == 0x0af40000
    ensures InetIP2Int("10.244.7.9") == 0x0af40709 && InetInt2Ip(0x0af40700) == "10.244.7.0"
  {
    hide InetIP2Int, InetInt2Ip, ParseQuad;
    assert Decimal(10) == "10" && Decimal(244) == "244" && Decimal(0) == "0" && Decimal(7) == "7" && Decimal(9) == "9";
    hide Decimal;
    QuadValue(10, 244, 0, 0);
    QuadValue(10, 244, 7, 9);
    QuadValue(10, 244, 7, 0);
    assert "10" + "." + "244" + "." + "0" + "." + "0" == "10.244.0.0";
    assert "10" + "." + "244" + "." + "7" + "." + "9" == "10.244.7.9";
    assert "10" + "." + "244" + "." + "7" + "." + "0" == "10.244.7.0";
  }

  lemma MaskOff(value: address, segment: string)
    ensures var base := value - value % MaskSize(segment);
            0 <= base < TWO_32 && base % MaskSize(segment) == 0 && base % 256 == 0
            && (segment != "24" ==> ByteAt(base, 2) == 0)
  {
    var q := value / MaskSize(segment);
    if segment == "8" {
      ThirdByte(q * 256);
      assert value - value % TWO_24 == q * 256 * TWO_16;
    } else if segment == "24" {
      assert value - value % TWO_8 == q * TWO_8;
    } else {
      ThirdByte(q);
      assert value - value % TWO_16 == q * TWO_16;
    }
  }

  lemma ThirdByte(q: nat)
    ensures ByteAt(q * TWO_16, 2) == 0 && q * TWO_16 % TWO_16 == 0 && q * TWO_16 % 256 == 0
  {
    assert q * TWO_16 / TWO_8 == q * 256;
  }

  /**
    The /24 blocks of all pool networks lie inside the configured subnet exactly when the mask is
    not 24 and no octet under the mask is 0; otherwise the pool counts in the wrong octet.
   */
  lemma PoolFitsIff(base: address, segment: string)
    requires base % MaskSize(segment) == 0 && base % 256 == 0
    ensures (forall j: nat :: j < 256 ==>
               base <= Network(base, j) && Network(base, j) + 256 <= base + MaskSize(segment)) <==>
            (segment != "24" && ByteAt(base, 0) != 0 && (segment != "8" ==> ByteAt(base, 1) != 0))
  {
    var good := segment != "24" && ByteAt(base, 0) != 0 && (segment != "8" ==> ByteAt(base, 1) != 0);
    StepOfMask(base, segment);
    hide ByteAt, ZeroOctet, Step;
    assert Network(base, 255) == base + 255 * Step(base);
    if good {
      forall j: nat | j < 256
        ensures base <= Network(base, j) && Network(base, j) + 256 <= base + MaskSize(segment)
      {
        assert Network(base, j) == base + j * Step(base);
      }
    } else {
      assert Network(base, 255) + 256 > base + MaskSize(segment);
    }
  }

  /** The step fits the mask exactly when the first zero octet is the one behind it. */
  lemma StepOfMask(base: address, segment: string)
    requires base % MaskSize(segment) == 0 && base % 256 == 0
    ensures var good := segment != "24" && ByteAt(base, 0) != 0 && (segment != "8" ==> ByteAt(base, 1) != 0);
            if good then MaskSize(segment) == 256 * Step(base) && Step(base) >= 256
            else 255 * Step(base) + 256 > MaskSize(segment)
  {
    MaskOff(base, segment);
    if segment == "8" {
      SecondByte(base / TWO_24);
    }
    hide ByteAt;
  }

  lemma SecondByte(q: nat)
    ensures ByteAt(q * TWO_24, 1) == 0
  {
    assert q * TWO_24 / TWO_16 == q * 256;
  }

  // ---------------------------------------------------------- initialisation

  function PoolInitKV(c: Config, kv: Store): Store {
    if |Read(kv, PoolKey(c))| > 0 then kv else kv[PoolKey(c) := PoolString(c.subnet)]
  }

  function NetworkInitKV(c: Config, kv: Store, host: string): Store {
    if Read(kv, HostKey(c, host)) != "" then kv
    else
      var pool := Split(Read(kv, PoolKey(c)), ';');
      kv[HostKey(c, host) := pool[0]][PoolKey(c) := Join(pool[1..], ';')]
  }

  /** One call of the closure of _GetIpamService on a host. */
  function InitKV(c: Config, kv: Store, host: string): Store {
    NetworkInitKV(c, PoolInitKV(c, kv), host)
  }

  /** getHostPath asks for the service twice. */
  function PathKV(c: Config, kv: Store, host: string): Store {
    InitKV(c, InitKV(c, kv, host), host)
  }

  predicate ValidHost(host: string) {
    host != "pool" && '/' !in host
  }

  ghost predicate PoolClean(c: Config, kv: Store) {
    AllEntries(Entries(Read(kv, PoolKey(c))))
  }

  predicate Settled(c: Config, kv: Store, host: string) {
    Read(kv, HostKey(c, host)) != "" && Read(kv, PoolKey(c)) != ""
  }

  lemma PoolStringClean(c: Config)
    requires ValidConfig(c) && InetIP2Int(c.subnet) % 256 == 0
    ensures PoolString(c.subnet) != "" && AllEntries(Entries(PoolString(c.subnet)))
  {
    hide ParseQuad, InetIP2Int, PoolString, Network, Encode, Entries;
    PoolIsNetworks(c.subnet);
    EncodeEntries(Networks(InetIP2Int(c.subnet), 0));
  }

  /**
    Running the initialisation again for a registered host changes at most the pool, and that only
    by refilling it when it is empty; for a host that is registered while the pool has entries left
    it changes nothing at all.
   */
  lemma ReinitHarmless(c: Config, kv: Store, host: string)
    requires Read(kv, HostKey(c, host)) != "" && ValidHost(host)
    ensures InitKV(c, kv, host) == PoolInitKV(c, kv)
    ensures InitKV(c, kv, host) == kv <==> Read(kv, PoolKey(c)) != "" || kv == kv[PoolKey(c) := PoolString(c.subnet)]
    ensures forall key :: key != PoolKey(c) ==> Read(InitKV(c, kv, host), key) == Read(kv, key)
  {
    hide PoolString, HostKey, PoolKey;
    HostKeys(c, host, host);
  }

  /** getHostPath leaves the host registered and the pool non-empty, so that later calls change nothing. */
  lemma PathSettles(c: Config, kv: Store, host: string)
    requires ValidConfig(c) && InetIP2Int(c.subnet) % 256 == 0 && ValidHost(host) && PoolClean(c, kv)
    ensures Settled(c, PathKV(c, kv, host), host) && PoolClean(c, PathKV(c, kv, host))
    ensures InitKV(c, PathKV(c, kv, host), host) == PathKV(c, kv, host)
    ensures PathKV(c, PathKV(c, kv, host), host) == PathKV(c, kv, host)
  {
    hide PoolString, HostKey, PoolKey, ParseQuad, InetIP2Int, InitKV, Split, Join;
    HostKeys(c, host, host);
    PoolStringClean(c);
    RegisterOnce(c, kv, host);
    var kv1 := InitKV(c, kv, host);
    ReinitHarmless(c, kv1, host);
    ReinitHarmless(c, PathKV(c, kv, host), host);
  }

  lemma RegisterOnce(c: Config, kv: Store, host: string)
    requires ValidConfig(c) && InetIP2Int(c.subnet) % 256 == 0 && ValidHost(host) && PoolClean(c, kv)
    ensures Read(InitKV(c, kv, host), HostKey(c, host)) != "" && PoolClean(c, InitKV(c, kv, host))
  {
    hide PoolString, HostKey, PoolKey, ParseQuad, InetIP2Int, Split, Join;
    HostKeys(c, host, host);
    PoolStringClean(c);
    var kv1 := PoolInitKV(c, kv);
    var pool := Entries(Read(kv1, PoolKey(c)));
    assert pool != [] && IsEntry(pool[0]) && AllEntries(pool[1..]) by {
      forall i | 0 <= i < |pool| - 1 ensures IsEntry(pool[1..][i]) { assert IsEntry(pool[i + 1]); }
    }
    EntriesOfJoin(pool[1..]);
  }
}
