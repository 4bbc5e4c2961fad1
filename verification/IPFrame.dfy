/**
  The IPv4 frame codec of tunvpn/util/ipframe.go (format of section 3.1 of RFC 791): what parsing a
  byte string means, what printing a frame yields, and how far the two invert each other.
 */
module IPFrame {
  import opened Bytes
  import opened Checksum

  datatype FrameOption = FrameOption(key: uint16, value: uint16)

  datatype Frame = Frame(
    version: byte, headerLen: byte, tos: byte, totalLen: uint16, identification: uint16, flag: byte, offset: uint16,
    ttl: byte, protocol: byte, headerCheckSum: uint16, source: seq<byte>, target: seq<byte>,
    options: seq<FrameOption>, payload: seq<byte>)

  const MINIMUM_HEADER_LEN := 5

  /**
    Panic: the length field is shorter than the header, so that after reading that many bytes the
    program indexes or slices beyond them and stops.
   */
  datatype Outcome =
    | NeedMore
    | NonIPv4
    | HeaderTooShort
    | Panic(used: nat)
    | Parsed(frame: Frame, used: nat)

  function OptionsIn(bytes: seq<byte>, headerLen: nat): (options: seq<FrameOption>)
    requires headerLen >= 5 && 4 * headerLen <= |bytes|
    ensures |options| == headerLen - 5
  {
    seq(headerLen - 5, i requires 0 <= i < headerLen - 5 =>
      FrameOption(BytesToUint16(bytes, 20 + 4 * i), BytesToUint16(bytes, 22 + 4 * i)))
  }

  function Decoded(bytes: seq<byte>, headerLen: nat): Frame
    requires 5 <= headerLen <= 15 && 4 * headerLen <= |bytes| < 65536
  {
    Frame(bytes[0] / 16, headerLen, bytes[1], |bytes|, BytesToUint16(bytes, 4), bytes[6] / 32,
          bytes[6] as int % 32 * 256 + bytes[7] as int, bytes[8], bytes[9], BytesToUint16(bytes, 10),
          bytes[12..16], bytes[16..20], OptionsIn(bytes, headerLen), bytes[4 * headerLen..])
  }

  /** What ParseIPFrame finds at the front of the readable bytes. */
  function Parse(b: seq<byte>): (out: Outcome)
    ensures out.Parsed? ==> 20 <= out.used <= |b|
    ensures out.Panic? ==> out.used <= |b|
  {
    if |b| < 4 then NeedMore
    else if b[0] / 16 != 4 then NonIPv4
    else if b[0] % 16 < MINIMUM_HEADER_LEN then HeaderTooShort
    else
      var headerLen := b[0] % 16;
      var totalLen := BytesToUint16(b, 2);
      if |b| < 4 * headerLen then NeedMore
      else if |b| < totalLen then NeedMore
      else if totalLen < 4 * headerLen then Panic(totalLen)
      else Parsed(Decoded(b[..totalLen], headerLen), totalLen)
  }

  // ---------------------------------------------------------------- printing

  function OptionBytes(options: seq<FrameOption>): (bytes: seq<byte>)
    ensures |bytes| == 4 * |options|
  {
    if options == [] then []
    else
      var last := options[|options| - 1];
      OptionBytes(options[..|options| - 1]) + Uint16ToBytes(last.key) + Uint16ToBytes(last.value)
  }

  /** The first twelve bytes, with a zero checksum. */
  function FixedPart(f: Frame): (bytes: seq<byte>)
    ensures |bytes| == 12
  {
    [(f.version * 16 + f.headerLen) % 256, f.tos] + Uint16ToBytes(f.totalLen) + Uint16ToBytes(f.identification)
    + [f.flag * 32 % 256 + f.offset / 256 % 32, f.offset % 256, f.ttl, f.protocol, 0, 0]
  }

  function Header(f: Frame): seq<byte> {
    FixedPart(f) + f.source + f.target + OptionBytes(f.options)
  }

  /** The bytes of a frame with the checksum it carries. */
  function Wire(f: Frame): seq<byte> {
    Patched(Header(f), f.headerCheckSum) + f.payload
  }

  /** The bytes ToBytes returns. */
  function Printed(f: Frame): seq<byte> {
    Patched(Header(f), Stored(Header(f))) + f.payload
  }

  // ------------------------------------------------------------- well-formed

  predicate WellFormed(f: Frame) {
    && f.version == 4 && 5 <= f.headerLen <= 15
    && |f.source| == 4 && |f.target| == 4 && |f.options| == f.headerLen - 5
    && f.totalLen == 4 * f.headerLen + |f.payload|
    && f.flag < 8 && f.offset < 8192
  }

  lemma {:induction false} OptionAt(options: seq<FrameOption>, i: nat)
    requires i < |options|
    ensures OptionBytes(options)[4 * i..4 * i + 4] == Uint16ToBytes(options[i].key) + Uint16ToBytes(options[i].value)
  {
    var init, last := options[..|options| - 1], options[|options| - 1];
    var front, four := OptionBytes(init), Uint16ToBytes(last.key) + Uint16ToBytes(last.value);
    assert OptionBytes(options) == front + four;
    hide OptionBytes, Uint16ToBytes;
    if i < |options| - 1 {
      OptionAt(init, i);
      assert (front + four)[4 * i..4 * i + 4] == front[4 * i..4 * i + 4];
    } else {
      assert (front + four)[4 * i..4 * i + 4] == four;
    }
  }

  /** Where each field of a well-formed frame is found in its header. */
  lemma HeaderLayout(f: Frame)
    requires WellFormed(f)
    ensures var h := Header(f);
            && |h| == 4 * f.headerLen && |h| >= 20
            && h[..12] == FixedPart(f) && h[12..16] == f.source && h[16..20] == f.target
            && h[20..] == OptionBytes(f.options)
  {
    hide FixedPart, OptionBytes;
  }

  lemma FixedLayout(f: Frame)
    requires WellFormed(f)
    ensures var h := FixedPart(f);
            && h[0] / 16 == 4 && h[0] % 16 == f.headerLen && h[1] == f.tos
            && BytesToUint16(h, 2) == f.totalLen && BytesToUint16(h, 4) == f.identification
            && h[6] / 32 == f.flag && h[6] as int % 32 * 256 + h[7] as int == f.offset
            && h[8] == f.ttl && h[9] == f.protocol && h[10] == 0 && h[11] == 0
  {
  }

  lemma OptionsFound(bytes: seq<byte>, f: Frame)
    requires WellFormed(f) && |bytes| >= 4 * f.headerLen && bytes[20..4 * f.headerLen] == OptionBytes(f.options)
    ensures OptionsIn(bytes, f.headerLen) == f.options
  {
    hide OptionBytes;
    forall i | 0 <= i < |f.options| ensures OptionsIn(bytes, f.headerLen)[i] == f.options[i] {
      OptionAt(f.options, i);
      Slice(bytes, 20, 4 * f.headerLen, 4 * i);
      OneOption(bytes, 20 + 4 * i, f.options[i]);
    }
  }

  lemma Slice(bytes: seq<byte>, lo: nat, hi: nat, at: nat)
    requires lo + at + 4 <= hi <= |bytes|
    ensures bytes[lo..hi][at..at + 4] == bytes[lo + at..lo + at + 4]
  {
    var x, y := bytes[lo..hi][at..at + 4], bytes[lo + at..lo + at + 4];
    assert x[0] == y[0] && x[1] == y[1] && x[2] == y[2] && x[3] == y[3];
  }

  lemma OneOption(bytes: seq<byte>, at: nat, option: FrameOption)
    requires at + 4 <= |bytes| && bytes[at..at + 4] == Uint16ToBytes(option.key) + Uint16ToBytes(option.value)
    ensures BytesToUint16(bytes, at) == option.key && BytesToUint16(bytes, at + 2) == option.value
  {
    var four := bytes[at..at + 4];
    assert four[0] == option.key / 256 && four[1] == option.key % 256 && four[2] == option.value / 256
        && four[3] == option.value % 256;
  }

  lemma WireLayout(f: Frame)
    requires WellFormed(f)
    ensures var p := Wire(f);
            && |p| == f.totalLen
            && p[..10] == FixedPart(f)[..10] && BytesToUint16(p, 10) == f.headerCheckSum
            && p[12..16] == f.source && p[16..20] == f.target
            && p[20..4 * f.headerLen] == OptionBytes(f.options) && p[4 * f.headerLen..] == f.payload
  {
    hide FixedPart, OptionBytes, Header;
    HeaderLayout(f);
    var h, p := Header(f), Wire(f);
    assert forall i :: 0 <= i < |h| && i != 10 && i != 11 ==> p[i] == h[i];
    assert p[12..16] == h[12..16];
    assert p[16..20] == h[16..20];
    assert p[20..|h|] == h[20..];
    assert p[..10] == h[..12][..10];
  }

  lemma HeaderIgnoresChecksum(f: Frame, value: uint16)
    ensures Header(f.(headerCheckSum := value)) == Header(f) && Printed(f.(headerCheckSum := value)) == Printed(f)
  {
    hide OptionBytes, Stored;
    assert FixedPart(f.(headerCheckSum := value)) == FixedPart(f);
  }

  lemma PrintedIsWire(f: Frame)
    requires WellFormed(f)
    ensures var g := f.(headerCheckSum := Stored(Header(f)));
            WellFormed(g) && Printed(f) == Wire(g) && FixedPart(g) == FixedPart(f)
  {
    hide OptionBytes, Stored;
    HeaderIgnoresChecksum(f, Stored(Header(f)));
  }

  lemma PrintedLayout(f: Frame)
    requires WellFormed(f)
    ensures var p := Printed(f);
            && |p| == f.totalLen
            && p[..10] == FixedPart(f)[..10] && BytesToUint16(p, 10) == Stored(Header(f))
            && p[12..16] == f.source && p[16..20] == f.target
            && p[20..4 * f.headerLen] == OptionBytes(f.options) && p[4 * f.headerLen..] == f.payload
  {
    hide FixedPart, OptionBytes, Stored, Header, Wire, Printed;
    PrintedIsWire(f);
    WireLayout(f.(headerCheckSum := Stored(Header(f))));
  }

  lemma ParseWire(f: Frame, suffix: seq<byte>)
    requires WellFormed(f)
    ensures Parse(Wire(f) + suffix) == Parsed(f, |Wire(f)|)
  {
    hide FixedPart, OptionBytes, Header, Wire, OptionsIn;
    var p := Wire(f);
    WireLayout(f);
    FixedLayout(f);
    var fixed := FixedPart(f);
    assert forall i :: 0 <= i < 10 ==> p[i] == p[..10][i] && p[i] == fixed[i];
    var b := p + suffix;
    assert forall i :: 0 <= i < |p| ==> b[i] == p[i];
    assert b[..|p|] == p;
    OptionsFound(p, f);
    DecodedFields(p, f);
  }

  /**
    Parsing what was printed returns the frame with its checksum filled in and leaves every byte
    behind it untouched.
   */
  lemma ParseAfterPrint(f: Frame, suffix: seq<byte>)
    requires WellFormed(f)
    ensures Parse(Printed(f) + suffix) == Parsed(f.(headerCheckSum := Stored(Header(f))), |Printed(f)|)
  {
    hide Parse, FixedPart, Stored, Header, Printed, Wire;
    PrintedIsWire(f);
    ParseWire(f.(headerCheckSum := Stored(Header(f))), suffix);
  }

  lemma DecodedFields(p: seq<byte>, f: Frame)
    requires WellFormed(f) && |p| == f.totalLen
    requires forall i :: 0 <= i < 10 ==> p[i] == FixedPart(f)[i]
    requires p[12..16] == f.source && p[16..20] == f.target && OptionsIn(p, f.headerLen) == f.options
    requires p[4 * f.headerLen..] == f.payload
    ensures Decoded(p, f.headerLen) == f.(headerCheckSum := BytesToUint16(p, 10))
  {
    hide FixedPart, OptionsIn;
    FixedLayout(f);
  }

  lemma ParsedIsWellFormed(b: seq<byte>)
    requires Parse(b).Parsed?
    ensures WellFormed(Parse(b).frame) && Parse(b).used == Parse(b).frame.totalLen
  {
  }

  lemma {:induction false} OptionBytesOf(bytes: seq<byte>, headerLen: nat, n: nat)
    requires headerLen >= 5 && 4 * headerLen <= |bytes| && n <= headerLen - 5
    ensures OptionBytes(OptionsIn(bytes, headerLen)[..n]) == bytes[20..20 + 4 * n]
  {
    var options := OptionsIn(bytes, headerLen);
    if n > 0 {
      OptionBytesOf(bytes, headerLen, n - 1);
      assert options[..n][..n - 1] == options[..n - 1];
      var four := Uint16ToBytes(options[n - 1].key) + Uint16ToBytes(options[n - 1].value);
      assert forall k :: 0 <= k < 4 ==> four[k] == bytes[20 + 4 * (n - 1) + k];
      assert OptionBytes(options[..n]) == bytes[20..20 + 4 * (n - 1)] + four;
    }
  }

  lemma FixedOf(bytes: seq<byte>, headerLen: nat)
    requires 5 <= headerLen <= 15 && 4 * headerLen <= |bytes| < 65536
    requires bytes[0] / 16 == 4 && bytes[0] % 16 == headerLen && BytesToUint16(bytes, 2) == |bytes|
    ensures FixedPart(Decoded(bytes, headerLen)) == bytes[..12][10 := 0][11 := 0]
  {
    hide OptionsIn;
    var f := Decoded(bytes, headerLen);
    var h, expected := FixedPart(f), bytes[..12][10 := 0][11 := 0];
    assert h[0] == bytes[0] && h[1] == bytes[1] && h[2] == bytes[2] && h[3] == bytes[3] && h[4] == bytes[4]
        && h[5] == bytes[5];
    assert h[6] == bytes[6] && h[7] == bytes[7] && h[8] == bytes[8] && h[9] == bytes[9];
    assert forall i :: 0 <= i < 12 ==> h[i] == expected[i];
  }

  lemma HeaderOf(bytes: seq<byte>, headerLen: nat)
    requires 5 <= headerLen <= 15 && 4 * headerLen <= |bytes| < 65536
    requires bytes[0] / 16 == 4 && bytes[0] % 16 == headerLen && BytesToUint16(bytes, 2) == |bytes|
    ensures Header(Decoded(bytes, headerLen)) == bytes[..4 * headerLen][10 := 0][11 := 0]
  {
    hide FixedPart, OptionsIn, OptionBytes;
    FixedOf(bytes, headerLen);
    OptionBytesOf(bytes, headerLen, headerLen - 5);
    var options := OptionsIn(bytes, headerLen);
    assert options[..headerLen - 5] == options;
    var fixed := bytes[..12][10 := 0][11 := 0];
    assert bytes[..4 * headerLen][10 := 0][11 := 0] == fixed + bytes[12..16] + bytes[16..20] + bytes[20..4 * headerLen];
  }

  lemma WireOfParsed(b: seq<byte>)
    requires Parse(b).Parsed?
    ensures Wire(Parse(b).frame) == b[..Parse(b).used]
  {
    hide FixedPart, OptionsIn, OptionBytes, Header;
    var f, bytes := Parse(b).frame, b[..Parse(b).used];
    var n := 4 * f.headerLen;
    HeaderOf(bytes, f.headerLen);
    var value := f.headerCheckSum;
    assert value / 256 == bytes[10] && value % 256 == bytes[11];
    assert Patched(Header(f), value) == bytes[..n];
    assert bytes == bytes[..n] + bytes[n..];
  }

  /** The parser finds a frame exactly when the bytes at the front are those of that frame, well-formed. */
  lemma ParseIff(b: seq<byte>, f: Frame, used: nat)
    ensures Parse(b) == Parsed(f, used) <==>
            WellFormed(f) && used == f.totalLen && used <= |b| && b[..used] == Wire(f)
  {
    hide Parse, WellFormed, Wire;
    if Parse(b) == Parsed(f, used) {
      ParsedIsWellFormed(b);
      WireOfParsed(b);
    }
    if WellFormed(f) && used == f.totalLen && used <= |b| && b[..used] == Wire(f) {
      assert Wire(f) + b[used..] == b;
      ParseWire(f, b[used..]);
    }
  }

  /**
    Printing what was parsed returns the consumed bytes with the checksum recomputed, so all of them
    unchanged exactly when bytes 10 and 11 already held the value of toCheckSum.
   */
  lemma PrintAfterParse(b: seq<byte>)
    requires Parse(b).Parsed?
    ensures var f, used := Parse(b).frame, Parse(b).used;
            && Printed(f) == Patched(b[..used], Stored(Header(f)))
            && (Printed(f) == b[..used] <==> f.headerCheckSum == Stored(Header(f)))
  {
    hide FixedPart, OptionsIn, OptionBytes, Stored, Header;
    var f, used := Parse(b).frame, Parse(b).used;
    var bytes := b[..used];
    var n := 4 * f.headerLen;
    HeaderOf(bytes, f.headerLen);
    assert bytes == bytes[..n] + bytes[n..];
    var value := Stored(Header(f));
    assert Patched(Header(f), value) == Patched(bytes[..n], value);
    assert Printed(f) == Patched(bytes, value);
    assert value / 256 * 256 + value % 256 == value;
    if Printed(f) == bytes {
      assert Printed(f)[10] == bytes[10] && Printed(f)[11] == bytes[11];
    }
  }

  /** Parse then print is idempotent: a printed frame parses to one that prints the same bytes. */
  lemma PrintedIsStable(f: Frame, suffix: seq<byte>)
    requires WellFormed(f)
    ensures var out := Parse(Printed(f) + suffix);
            out.Parsed? && out.used == |Printed(f)| && Printed(out.frame) == Printed(f)
  {
    hide Header, Printed, Stored;
    ParseAfterPrint(f, suffix);
    HeaderIgnoresChecksum(f, Stored(Header(f)));
  }

  /**
    The printed header of a well-formed frame verifies at a receiver exactly when the word sum of
    the header carries no second time (Checksum.ChecksumIff).
   */
  lemma PrintedChecksumIff(f: Frame)
    requires WellFormed(f)
    ensures OnesComplementSum(Printed(f)[..4 * f.headerLen]) == 65535 <==> High(Header(f)) + Low(Header(f)) < 65536
  {
    hide FixedPart, OptionBytes, Stored, Header, OnesComplementSum;
    HeaderLayout(f);
    FixedLayout(f);
    var h := Header(f);
    assert h[10] == h[..12][10] && h[11] == h[..12][11];
    ChecksumIff(h);
    assert Printed(f)[..|h|] == Patched(h, Stored(h));
  }

  // ------------------------------------------------ the format, bit by bit

  /** A byte shifted right n times. */
  function Shifted(x: byte, n: nat): nat {
    if n == 0 then x else Shifted(x, n - 1) / 2
  }

  /** The i-th bit of a byte, the most significant one being bit 0. */
  function BitOf(x: byte, i: nat): nat
    requires i < 8
  {
    Shifted(x, 7 - i) % 2
  }

  /** The number in n bits from bit k on, the most significant bit first. */
  function Bits(b: seq<byte>, k: nat, n: nat): nat
    requires k + n <= 8 * |b|
  {
    if n == 0 then 0 else 2 * Bits(b, k, n - 1) + BitOf(b[(k + n - 1) / 8], (k + n - 1) % 8)
  }

  /** The fields of a frame stand at the bit positions of section 3.1 of RFC 791. */
  ghost predicate HasFields(b: seq<byte>, f: Frame) {
    && 20 <= 4 * f.headerLen <= f.totalLen <= |b| && |f.options| == f.headerLen - 5
    && f.version == Bits(b, 0, 4) && f.headerLen == Bits(b, 4, 4) && f.tos == Bits(b, 8, 8)
    && f.totalLen == Bits(b, 16, 16) && f.identification == Bits(b, 32, 16)
    && f.flag == Bits(b, 48, 3) && f.offset == Bits(b, 51, 13)
    && f.ttl == Bits(b, 64, 8) && f.protocol == Bits(b, 72, 8) && f.headerCheckSum == Bits(b, 80, 16)
    && f.source == b[12..16] && f.target == b[16..20]
    && (forall i :: 0 <= i < |f.options| ==> OptionStands(b, 20 + 4 * i, f.options[i]))
    && f.payload == b[4 * f.headerLen..f.totalLen]
  }

  ghost predicate OptionStands(b: seq<byte>, at: nat, option: FrameOption)
    requires at + 4 <= |b|
  {
    option.key == Bits(b, 8 * at, 16) && option.value == Bits(b, 8 * at + 16, 16)
  }

  lemma NextBit(b: seq<byte>, from: nat, n: nat, k: nat, i: nat)
    requires k < |b| && i < 8 && from + n == 8 * k + i
    ensures Bits(b, from, n + 1) == 2 * Bits(b, from, n) + Shifted(b[k], 7 - i) - 2 * Shifted(b[k], 8 - i)
  {
    assert (8 * k + i) / 8 == k && (8 * k + i) % 8 == i;
  }

  lemma ShiftedTwice(x: byte, n: nat)
    ensures Shifted(x, n + 2) == Shifted(x, n) / 4 && Shifted(x, n + 1) == Shifted(x, n) / 2
  {
    assert Shifted(x, n + 2) == Shifted(x, n + 1) / 2;
  }

  lemma ShiftedValues(x: byte)
    ensures Shifted(x, 0) == x && Shifted(x, 4) == x / 16 && Shifted(x, 5) == x / 32 && Shifted(x, 8) == 0
  {
    assert Shifted(x, 0) == x;
    hide Shifted;
    ShiftedTwice(x, 0);
    ShiftedTwice(x, 2);
    ShiftedTwice(x, 4);
    ShiftedTwice(x, 6);
  }

  lemma FollowingBits(b: seq<byte>, from: nat, k: nat)
    requires from <= 8 * k && k < |b|
    ensures var n, x, front := 8 * k - from, b[k], Bits(b, from, 8 * k - from) - Shifted(b[k], 8);
            && Bits(b, from, n + 3) == front * 8 + Shifted(x, 5) && Bits(b, from, n + 4) == front * 16 + Shifted(x, 4)
            && Bits(b, from, n + 8) == front * 256 + Shifted(x, 0)
  {
    hide Bits, Shifted;
    var n := 8 * k - from;
    NextBit(b, from, n, k, 0);
    NextBit(b, from, n + 1, k, 1);
    NextBit(b, from, n + 2, k, 2);
    NextBit(b, from, n + 3, k, 3);
    NextBit(b, from, n + 4, k, 4);
    NextBit(b, from, n + 5, k, 5);
    NextBit(b, from, n + 6, k, 6);
    NextBit(b, from, n + 7, k, 7);
  }

  /** Reading on through the bits of a byte, from whatever stands before them. */
  lemma BitsOfByte(b: seq<byte>, from: nat, k: nat)
    requires from <= 8 * k && k < |b|
    ensures var n, x, front := 8 * k - from, b[k] as int, Bits(b, from, 8 * k - from);
            && Bits(b, from, n + 3) == front * 8 + x / 32 && Bits(b, from, n + 4) == front * 16 + x / 16
            && Bits(b, from, n + 8) == front * 256 + x
  {
    hide Bits, Shifted;
    ShiftedValues(b[k]);
    FollowingBits(b, from, k);
  }

  lemma NoBits(b: seq<byte>, from: nat)
    requires from <= 8 * |b|
    ensures Bits(b, from, 0) == 0
  {
  }

  lemma BitsInByte(b: seq<byte>, k: nat)
    requires k < |b|
    ensures Bits(b, 8 * k, 8) == b[k] && Bits(b, 8 * k, 4) == b[k] / 16 && Bits(b, 8 * k, 3) == b[k] / 32
  {
    hide Bits;
    NoBits(b, 8 * k);
    BitsOfByte(b, 8 * k, k);
  }

  lemma LastBits(b: seq<byte>, k: nat)
    requires k < |b|
    ensures Bits(b, 8 * k + 4, 4) == Shifted(b[k], 0) - 16 * Shifted(b[k], 4)
    ensures Bits(b, 8 * k + 3, 5) == Shifted(b[k], 0) - 32 * Shifted(b[k], 5)
  {
    hide Bits, Shifted;
    NoBits(b, 8 * k + 4);
    NextBit(b, 8 * k + 4, 0, k, 4);
    NextBit(b, 8 * k + 4, 1, k, 5);
    NextBit(b, 8 * k + 4, 2, k, 6);
    NextBit(b, 8 * k + 4, 3, k, 7);
    NoBits(b, 8 * k + 3);
    NextBit(b, 8 * k + 3, 0, k, 3);
    NextBit(b, 8 * k + 3, 1, k, 4);
    NextBit(b, 8 * k + 3, 2, k, 5);
    NextBit(b, 8 * k + 3, 3, k, 6);
    NextBit(b, 8 * k + 3, 4, k, 7);
  }

  lemma LowBits(b: seq<byte>, k: nat)
    requires k < |b|
    ensures Bits(b, 8 * k + 4, 4) == b[k] % 16 && Bits(b, 8 * k + 3, 5) == b[k] % 32
  {
    hide Bits, Shifted;
    LastBits(b, k);
    ShiftedValues(b[k]);
  }

  lemma BitsOfWord(b: seq<byte>, k: nat)
    requires k + 1 < |b|
    ensures Bits(b, 8 * k, 16) == BytesToUint16(b, k)
    ensures Bits(b, 8 * k + 3, 13) == b[k] as int % 32 * 256 + b[k + 1] as int
  {
    hide Bits;
    BitsInByte(b, k);
    LowBits(b, k);
    BitsOfByte(b, 8 * k, k + 1);
    BitsOfByte(b, 8 * k + 3, k + 1);
  }

  lemma FieldsOfBytes(b: seq<byte>, headerLen: nat)
    requires 5 <= headerLen <= 15 && 4 * headerLen <= |b| < 65536
    requires b[0] / 16 == 4 && b[0] % 16 == headerLen && BytesToUint16(b, 2) == |b|
    ensures HasFields(b, Decoded(b, headerLen))
  {
    hide Bits;
    BitsInByte(b, 0);
    LowBits(b, 0);
    BitsInByte(b, 1);
    BitsOfWord(b, 2);
    BitsOfWord(b, 4);
    BitsInByte(b, 6);
    BitsOfWord(b, 6);
    BitsInByte(b, 8);
    BitsInByte(b, 9);
    BitsOfWord(b, 10);
    forall i | 0 <= i < headerLen - 5 ensures OptionStands(b, 20 + 4 * i, OptionsIn(b, headerLen)[i]) {
      BitsOfWord(b, 20 + 4 * i);
      BitsOfWord(b, 22 + 4 * i);
    }
  }

  /** The bits of a prefix are the bits of the whole. */
  lemma {:induction false} BitsOfPrefix(b: seq<byte>, used: nat, k: nat, n: nat)
    requires used <= |b| && k + n <= 8 * used
    ensures Bits(b[..used], k, n) == Bits(b, k, n)
  {
    if n > 0 {
      BitsOfPrefix(b, used, k, n - 1);
    }
  }

  lemma FieldsOfPrefix(b: seq<byte>, used: nat, f: Frame)
    requires used <= |b| && HasFields(b[..used], f)
    ensures HasFields(b, f)
  {
    hide Bits;
    forall k: nat, n: nat | k + n <= 8 * used ensures Bits(b[..used], k, n) == Bits(b, k, n) {
      BitsOfPrefix(b, used, k, n);
    }
    forall i | 0 <= i < |f.options| ensures OptionStands(b, 20 + 4 * i, f.options[i]) {
      assert OptionStands(b[..used], 20 + 4 * i, f.options[i]);
    }
  }

  /** Every parsed frame has the fields that section 3.1 of RFC 791 reads from the bytes. */
  lemma ParsedFields(b: seq<byte>)
    requires Parse(b).Parsed?
    ensures HasFields(b, Parse(b).frame)
  {
    hide HasFields, Decoded;
    var used := Parse(b).used;
    FieldsOfBytes(b[..used], b[0] % 16);
    FieldsOfPrefix(b, used, Parse(b).frame);
  }

  /** Every printed frame has its fields, and the new checksum, where section 3.1 of RFC 791 wants them. */
  lemma PrintedFields(f: Frame)
    requires WellFormed(f)
    ensures HasFields(Printed(f), f.(headerCheckSum := Stored(Header(f))))
  {
    hide HasFields, Parse, Printed, Header, Stored;
    ParseAfterPrint(f, []);
    assert Printed(f) + [] == Printed(f);
    ParsedFields(Printed(f));
  }

  // ------------------------------------------------------ when it decides

  /**
    All outcomes apart from a frame: what is rejected, what makes the program panic, and what makes
    it wait, by the first byte and the length field alone.
   */
  lemma OutcomeIff(b: seq<byte>)
    ensures Parse(b).NonIPv4? <==> |b| >= 4 && !(0x40 <= b[0] <= 0x4f)
    ensures Parse(b).HeaderTooShort? <==> |b| >= 4 && 0x40 <= b[0] <= 0x44
    ensures Parse(b).NeedMore? <==>
            |b| < 4 || (0x45 <= b[0] <= 0x4f && (|b| < 4 * (b[0] - 0x40) || |b| < b[2] as int * 256 + b[3] as int))
    ensures Parse(b).Panic? <==>
            && |b| >= 4 && 0x45 <= b[0] <= 0x4f && |b| >= 4 * (b[0] - 0x40)
            && b[2] as int * 256 + b[3] as int < 4 * (b[0] - 0x40)
  {
  }

  /** The parser never waits for ever: whatever it waits with, some further bytes make it decide. */
  lemma WaitingEnds(b: seq<byte>)
    ensures exists more: seq<byte> :: !Parse(b + more).NeedMore?
  {
    var zero: byte := 0;
    var more := seq<byte>(65536, i => zero);
    assert !Parse(b + more).NeedMore? by {
      OutcomeIff(b + more);
    }
  }
}
