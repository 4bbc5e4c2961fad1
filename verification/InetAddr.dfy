/** Dotted-quad text and 32-bit address values (pkg/utils/ip_trans.go). */
module InetAddr {
  import opened GoStrings
  import opened Options

  const TWO_8: int := 256
  const TWO_16: int := 65536
  const TWO_24: int := 16777216
  const TWO_32: int := 4294967296

  type octet = x: int | 0 <= x < 256
  type address = x: int | 0 <= x < 4294967296

  function Digit(d: int): char
    requires 0 <= d < 10
  {
    (d + '0' as int) as char
  }

  predicate IsDigit(c: char) {
    '0' <= c <= '9'
  }

  function Value(c: char): (d: int)
    requires IsDigit(c)
    ensures 0 <= d < 10
  {
    c as int - '0' as int
  }

  /** fmt.Sprintf("%d", b) for a byte. */
  function Decimal(b: octet): string {
    if b < 10 then [Digit(b)]
    else if b < 100 then [Digit(b / 10), Digit(b % 10)]
    else [Digit(b / 100), Digit(b / 10 % 10), Digit(b % 10)]
  }

  /** One field of net.ParseIP: one to three digits, no leading zero, at most 255. */
  function ParseOctet(s: string): Option<octet> {
    if |s| == 1 && IsDigit(s[0]) then Some(Value(s[0]))
    else if |s| == 2 && IsDigit(s[0]) && IsDigit(s[1]) && s[0] != '0' then
      Some(10 * Value(s[0]) + Value(s[1]))
    else if |s| == 3 && IsDigit(s[0]) && IsDigit(s[1]) && IsDigit(s[2]) && s[0] != '0'
            && 100 * Value(s[0]) + 10 * Value(s[1]) + Value(s[2]) <= 255 then
      Some(100 * Value(s[0]) + 10 * Value(s[1]) + Value(s[2]))
    else None
  }

  lemma ParseDecimal(b: octet)
    ensures ParseOctet(Decimal(b)) == Some(b)
    ensures Decimal(b) != "" && Free(Decimal(b), '.') && Free(Decimal(b), ';') && Free(Decimal(b), '/')
    ensures IsDigit(Decimal(b)[0])
  {
    DecimalParses(b);
    DecimalDigits(b);
    hide Decimal, ParseOctet;
  }

  lemma DecimalParses(b: octet)
    ensures ParseOctet(Decimal(b)) == Some(b)
  {
  }

  lemma DecimalDigits(b: octet)
    ensures Decimal(b) != "" && forall i :: 0 <= i < |Decimal(b)| ==> IsDigit(Decimal(b)[i])
  {
  }

  lemma DecimalParse(s: string)
    requires ParseOctet(s).Some?
    ensures s == Decimal(ParseOctet(s).value)
  {
    var v := ParseOctet(s).value;
    if |s| == 2 {
      var x, y := Value(s[0]), Value(s[1]);
      assert v / 10 == x && v % 10 == y;
      assert s == [s[0], s[1]];
    } else if |s| == 3 {
      var x, y, z := Value(s[0]), Value(s[1]), Value(s[2]);
      assert v / 10 == 10 * x + y && v % 10 == z && v / 100 == x;
      assert s == [s[0], s[1], s[2]];
    }
  }

  /** The byte of an int64 that byte(ip >> shift) keeps; floor division is the arithmetic shift. */
  function ByteAt(ip: int, index: int): octet
    requires 0 <= index < 4
  {
    match index
    case 0 => ip / TWO_24 % 256
    case 1 => ip / TWO_16 % 256
    case 2 => ip / TWO_8 % 256
    case _ => ip % 256
  }

  function Fields(ip: int): seq<string> {
    [Decimal(ByteAt(ip, 0)), Decimal(ByteAt(ip, 1)), Decimal(ByteAt(ip, 2)), Decimal(ByteAt(ip, 3))]
  }

  function InetInt2Ip(ip: int): string {
    Join(Fields(ip), '.')
  }

  /** net.ParseIP on an IPv4 dotted quad; any other text leaves the big.Int at zero. */
  function ParseQuad(ip: string): Option<address> {
    var p := Split(ip, '.');
    if |p| != 4 then None
    else
      match (ParseOctet(p[0]), ParseOctet(p[1]), ParseOctet(p[2]), ParseOctet(p[3]))
      case (Some(a), Some(b), Some(c), Some(d)) => Some(a * TWO_24 + b * TWO_16 + c * TWO_8 + d)
      case _ => None
  }

  function InetIP2Int(ip: string): address {
    match ParseQuad(ip)
    case Some(v) => v
    case None => 0
  }

  lemma BytesOf(ip: int)
    ensures ByteAt(ip, 0) * TWO_24 + ByteAt(ip, 1) * TWO_16 + ByteAt(ip, 2) * TWO_8 + ByteAt(ip, 3) == ip % TWO_32
  {
    var q1, q2, q3 := ip / 256, ip / TWO_16, ip / TWO_24;
    assert q2 == q1 / 256;
    assert q3 == q2 / 256;
    assert ip / TWO_32 == q3 / 256;
    assert ip == 256 * q1 + ip % 256;
    assert q1 == 256 * q2 + q1 % 256;
    assert q2 == 256 * q3 + q2 % 256;
    assert q3 == 256 * (ip / TWO_32) + q3 % 256;
  }

  lemma BytesUnique(a: octet, b: octet, c: octet, d: octet)
    ensures var ip := a * TWO_24 + b * TWO_16 + c * TWO_8 + d;
            ByteAt(ip, 0) == a && ByteAt(ip, 1) == b && ByteAt(ip, 2) == c && ByteAt(ip, 3) == d
  {
    var ip := a * TWO_24 + b * TWO_16 + c * TWO_8 + d;
    assert ip / TWO_24 == a;
    assert ip / TWO_16 == a * 256 + b;
    assert ip / TWO_8 == (a * 256 + b) * 256 + c;
  }

  lemma FieldsOfQuad(ip: int)
    ensures Split(InetInt2Ip(ip), '.') == Fields(ip)
    ensures AllFree(Fields(ip), '.')
  {
    var f := Fields(ip);
    forall i | 0 <= i < 4 ensures Free(f[i], '.') { ParseDecimal(ByteAt(ip, i)); }
    SplitJoinFree(f, '.');
  }

  /** Text and value invert each other, and an int64 outside 32 bits is truncated. */
  lemma QuadRoundTrip(ip: int)
    ensures ParseQuad(InetInt2Ip(ip)) == Some(ip % TWO_32)
    ensures InetIP2Int(InetInt2Ip(ip)) == ip % TWO_32
  {
    FieldsOfQuad(ip);
    forall i | 0 <= i < 4 ensures ParseOctet(Fields(ip)[i]) == Some(ByteAt(ip, i)) { ParseDecimal(ByteAt(ip, i)); }
    assert ParseOctet(Fields(ip)[0]).Some? && ParseOctet(Fields(ip)[3]).Some?;
    BytesOf(ip);
  }

  lemma QuadCanonical(s: string)
    requires ParseQuad(s).Some?
    ensures InetInt2Ip(InetIP2Int(s)) == s
  {
    var p := Split(s, '.');
    forall i | 0 <= i < 4 ensures ParseOctet(p[i]).Some? && p[i] == Decimal(ParseOctet(p[i]).value) {
      DecimalParse(p[i]);
    }
    BytesUnique(ParseOctet(p[0]).value, ParseOctet(p[1]).value, ParseOctet(p[2]).value, ParseOctet(p[3]).value);
    assert p == Fields(InetIP2Int(s));
    JoinSplit(s, '.');
  }

  /** Text that no address prints as counts as 0. */
  lemma MalformedIsZero(s: string)
    requires forall v: address :: InetInt2Ip(v) != s
    ensures InetIP2Int(s) == 0
  {
    hide InetInt2Ip, ParseQuad;
    if ParseQuad(s).Some? {
      QuadCanonical(s);
    }
  }

  /** The number that a string of digits denotes in base ten. */
  function Denotes(s: string): nat
    requires forall i :: 0 <= i < |s| ==> IsDigit(s[i])
  {
    if s == "" then 0 else 10 * Denotes(s[..|s| - 1]) + Value(s[|s| - 1])
  }

  lemma DenotesOne(c: char)
    requires IsDigit(c)
    ensures Denotes([c]) == Value(c)
  {
    assert [c][..0] == "";
  }

  lemma DenotesTwo(c: char, d: char)
    requires IsDigit(c) && IsDigit(d)
    ensures Denotes([c, d]) == 10 * Value(c) + Value(d)
  {
    DenotesOne(c);
    assert [c, d][..1] == [c];
  }

  lemma DenotesThree(c: char, d: char, e: char)
    requires IsDigit(c) && IsDigit(d) && IsDigit(e)
    ensures Denotes([c, d, e]) == 100 * Value(c) + 10 * Value(d) + Value(e)
  {
    DenotesTwo(c, d);
    assert [c, d, e][..2] == [c, d];
  }

  lemma DecimalDenotes(b: octet)
    ensures (forall i :: 0 <= i < |Decimal(b)| ==> IsDigit(Decimal(b)[i])) && Denotes(Decimal(b)) == b
  {
    DecimalDigits(b);
    hide Denotes;
    if b < 10 {
      DenotesOne(Digit(b));
    } else if b < 100 {
      DenotesTwo(Digit(b / 10), Digit(b % 10));
    } else {
      DenotesThree(Digit(b / 100), Digit(b / 10 % 10), Digit(b % 10));
    }
  }

  /** The text of an address is its four bytes in base ten, the most significant first, between dots. */
  lemma QuadLayout(a: octet, b: octet, c: octet, d: octet)
    ensures InetInt2Ip(16777216 * a as int + 65536 * b as int + 256 * c as int + d as int) ==
            Decimal(a) + "." + Decimal(b) + "." + Decimal(c) + "." + Decimal(d)
    ensures Denotes(Decimal(a)) == a && Denotes(Decimal(b)) == b && Denotes(Decimal(c)) == c && Denotes(Decimal(d)) == d
  {
    hide Decimal, Denotes;
    BytesUnique(a, b, c, d);
    DecimalDenotes(a);
    DecimalDenotes(b);
    DecimalDenotes(c);
    DecimalDenotes(d);
    JoinFour(Decimal(a), Decimal(b), Decimal(c), Decimal(d));
  }

  lemma JoinFour(a: string, b: string, c: string, d: string)
    ensures Join([a, b, c, d], '.') == a + "." + b + "." + c + "." + d
  {
    assert [a, b, c, d][1..] == [b, c, d] && [b, c, d][1..] == [c, d] && [c, d][1..] == [d];
    assert Join([c, d], '.') == c + "." + d;
    assert Join([b, c, d], '.') == b + "." + (c + "." + d);
    assert a + "." + (b + "." + (c + "." + d)) == a + "." + b + "." + c + "." + d;
  }

  /** One address written out. */
  lemma ExampleQuad()
    ensures InetInt2Ip(0xc0a80aff) == "192.168.10.255" && InetIP2Int("192.168.10.255") == 0xc0a80aff
  {
    hide ParseQuad, InetIP2Int, InetInt2Ip;
    QuadLayout(192, 168, 10, 255);
    assert Decimal(192) == "192" && Decimal(168) == "168" && Decimal(10) == "10" && Decimal(255) == "255";
    QuadRoundTrip(0xc0a80aff);
  }

  lemma QuadInjective(a: int, b: int)
    ensures InetInt2Ip(a) == InetInt2Ip(b) <==> a % TWO_32 == b % TWO_32
  {
    hide Join, ParseQuad, InetIP2Int;
    QuadRoundTrip(a);
    QuadRoundTrip(b);
    if a % TWO_32 == b % TWO_32 {
      BytesOf(a);
      BytesOf(b);
      assert forall i :: 0 <= i < 4 ==> ByteAt(a, i) == ByteAt(b, i) by {
        BytesUnique(ByteAt(a, 0), ByteAt(a, 1), ByteAt(a, 2), ByteAt(a, 3));
        BytesUnique(ByteAt(b, 0), ByteAt(b, 1), ByteAt(b, 2), ByteAt(b, 3));
      }
    }
  }

  /** A quad holds only digits and dots, so it is neither empty nor cut by ';' or '/'. */
  lemma QuadText(ip: int)
    ensures InetInt2Ip(ip) != "" && IsDigit(InetInt2Ip(ip)[0])
    ensures Free(InetInt2Ip(ip), ';') && Free(InetInt2Ip(ip), '/')
  {
    var f := Fields(ip);
    forall i | 0 <= i < 4 ensures Free(f[i], ';') && Free(f[i], '/') && f[i] != "" { ParseDecimal(ByteAt(ip, i)); }
    ParseDecimal(ByteAt(ip, 0));
    assert f[1..] == [f[1], f[2], f[3]] && f[1..][1..] == [f[2], f[3]] && f[1..][1..][1..] == [f[3]];
    assert Join([f[2], f[3]], '.') == f[2] + "." + Join([f[3]], '.');
    assert Join([f[1], f[2], f[3]], '.') == f[1] + "." + Join([f[2], f[3]], '.');
    assert InetInt2Ip(ip) == f[0] + "." + (f[1] + "." + (f[2] + "." + f[3]));
    assert InetInt2Ip(ip)[0] == f[0][0];
  }

  /** The last field, which the gateway and reserved-address tests look at. */
  lemma LastField(ip: int)
    ensures |Split(InetInt2Ip(ip), '.')| == 4 && Split(InetInt2Ip(ip), '.')[3] == Decimal(ip % 256)
    ensures forall b: octet :: Decimal(ip % 256) == Decimal(b) <==> ip % 256 == b
  {
    FieldsOfQuad(ip);
    forall b: octet ensures Decimal(ip % 256) == Decimal(b) <==> ip % 256 == b {
      ParseDecimal(ip % 256);
      ParseDecimal(b);
    }
  }

  /** The entry with the largest address value, the first one among equals. */
  method GetMaxIP(ips: seq<string>) returns (ip: string)
    requires ips != []
    ensures exists k :: 0 <= k < |ips| && ip == ips[k]
                        && (forall i :: 0 <= i < |ips| ==> InetIP2Int(ips[i]) <= InetIP2Int(ip))
                        && (forall i :: 0 <= i < k ==> InetIP2Int(ips[i]) < InetIP2Int(ip))
  {
    hide InetIP2Int;
    var values: seq<int> := [];
    for i := 0 to |ips|
      invariant |values| == i
      invariant forall k :: 0 <= k < i ==> values[k] == InetIP2Int(ips[k])
    {
      values := values + [InetIP2Int(ips[i])];
    }
    var maxNum := values[0];
    var maxArrayIndex := 0;
    for i := 1 to |values|
      invariant 0 <= maxArrayIndex < i && maxNum == values[maxArrayIndex]
      invariant forall k :: 0 <= k < i ==> values[k] <= maxNum
      invariant forall k :: 0 <= k < maxArrayIndex ==> values[k] < maxNum
    {
      if values[i] > maxNum {
        maxNum := values[i];
        maxArrayIndex := i;
      }
    }
    return ips[maxArrayIndex];
  }
}
