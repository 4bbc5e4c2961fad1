/**
  The imperative side of the tunnel: the byte buffer, the frame object with ParseIPFrame and ToBytes
  of tunvpn/util/ipframe.go, and the loops of tunvpn/tun/tun.go, proved against IPFrame and TunLoops.
 */
module TunDevice {
  import opened Bytes
  import opened Checksum
  import opened IPFrame
  import opened TunLoops

  /** The growable FIFO buffer the program takes from a library, reduced to what is used of it. */
  class ByteBuffer {
    var content: seq<byte>
    var readIndex: nat
    var markIndex: nat

    ghost predicate Valid()
      reads this
    {
      readIndex <= |content| && markIndex <= |content|
    }

    ghost function Unread(): seq<byte>
      reads this
      requires Valid()
    {
      content[readIndex..]
    }

    constructor ()
      ensures Valid() && Unread() == []
    {
      content, readIndex, markIndex := [], 0, 0;
    }

    method ReadableBytes() returns (n: nat)
      requires Valid()
      ensures n == |Unread()|
    {
      n := |content| - readIndex;
    }

    method Write(bytes: seq<byte>)
      requires Valid()
      modifies this
      ensures Valid() && Unread() == old(Unread()) + bytes
    {
      content := content + bytes;
    }

    method Read(length: nat) returns (bytes: seq<byte>)
      requires Valid()
      modifies this
      ensures Valid() && markIndex == old(markIndex) && content == old(content)
      ensures bytes == old(Unread())[..if length <= |old(Unread())| then length else |old(Unread())|]
      ensures Unread() == old(Unread())[|bytes|..] && readIndex == old(readIndex) + |bytes|
    {
      var n := if length <= |content| - readIndex then length else |content| - readIndex;
      bytes := content[readIndex..readIndex + n];
      readIndex := readIndex + n;
    }

    method Mark()
      requires Valid()
      modifies this
      ensures Valid() && Unread() == old(Unread()) && content == old(content)
      ensures markIndex == readIndex == old(readIndex)
    {
      markIndex := readIndex;
    }

    method Recover()
      requires Valid()
      modifies this
      ensures Valid() && content == old(content) && markIndex == readIndex == old(markIndex)
    {
      readIndex := markIndex;
    }

    method Clean()
      requires Valid()
      modifies this
      ensures Valid() && Unread() == []
    {
      content, readIndex, markIndex := [], 0, 0;
    }
  }

  class FrameObject {
    var version: byte
    var headerLen: byte
    var tos: byte
    var totalLen: uint16
    var identification: uint16
    var flag: byte
    var offset: uint16
    var ttl: byte
    var protocol: byte
    var headerCheckSum: uint16
    var source: seq<byte>
    var target: seq<byte>
    var options: seq<FrameOption>
    var payload: seq<byte>

    function Value(): Frame
      reads this
    {
      Frame(version, headerLen, tos, totalLen, identification, flag, offset, ttl, protocol, headerCheckSum,
            source, target, options, payload)
    }

    constructor (f: Frame)
      ensures Value() == f
    {
      version, headerLen, tos, totalLen, identification := f.version, f.headerLen, f.tos, f.totalLen, f.identification;
      flag, offset, ttl, protocol, headerCheckSum := f.flag, f.offset, f.ttl, f.protocol, f.headerCheckSum;
      source, target, options, payload := f.source, f.target, f.options, f.payload;
    }

    /** Prints the frame and, as a side effect, stores the checksum in it. */
    method ToBytes() returns (bytes: seq<byte>)
      modifies this`headerCheckSum
      ensures bytes == Printed(old(Value()))
      ensures Value() == old(Value()).(headerCheckSum := Stored(Header(old(Value()))))
    {
      hide Stored;
      bytes := [];
      bytes := bytes + [(version * 16 + headerLen) % 256];
      bytes := bytes + [tos];
      bytes := bytes + Uint16ToBytes(totalLen);
      bytes := bytes + Uint16ToBytes(identification);
      var flagAndOffset: byte := flag as int * 32 % 256 + offset as int / 256 % 32;
      bytes := bytes + [flagAndOffset];
      var offsetLow: byte := offset as int % 256;
      bytes := bytes + [offsetLow];
      bytes := bytes + [ttl];
      bytes := bytes + [protocol];
      bytes := bytes + [0, 0];
      assert bytes == FixedPart(Value());
      hide FixedPart, Uint16ToBytes, OptionBytes;
      bytes := bytes + source;
      bytes := bytes + target;
      var optionBytes := OptionsToBytes(options);
      bytes := bytes + optionBytes;
      assert bytes == Header(old(Value()));
      var checkSum := ToCheckSum(bytes);
      bytes := bytes[10 := checkSum / 256][11 := checkSum % 256];
      headerCheckSum := checkSum;
      bytes := bytes + payload;
    }
  }

  /** The option lines one after the other, key before value. */
  method OptionsToBytes(options: seq<FrameOption>) returns (bytes: seq<byte>)
    ensures bytes == OptionBytes(options)
  {
    hide Uint16ToBytes;
    bytes := [];
    for i := 0 to |options|
      invariant bytes == OptionBytes(options[..i])
    {
      var optionBytes := Uint16ToBytes(options[i].key);
      optionBytes := optionBytes + Uint16ToBytes(options[i].value);
      assert options[..i + 1] == options[..i] + [options[i]];
      OptionSnoc(options[..i], options[i]);
      bytes := bytes + optionBytes;
    }
    assert options[..|options|] == options;
  }

  lemma OptionSnoc(options: seq<FrameOption>, option: FrameOption)
    ensures OptionBytes(options + [option]) ==
              OptionBytes(options) + (Uint16ToBytes(option.key) + Uint16ToBytes(option.value))
  {
    assert (options + [option])[..|options|] == options;
  }

  datatype ParseError = NoError | NotIPv4 | HeaderLenTooSmall | Panicked | SendFailed

  method ParseIPFrame(buffer: ByteBuffer) returns (frame: FrameObject?, err: ParseError)
    requires buffer.Valid()
    modifies buffer
    ensures buffer.Valid() && (frame != null ==> fresh(frame) && err == NoError)
    ensures match Parse(old(buffer.Unread()))
            case NeedMore => frame == null && err == NoError && buffer.Unread() == old(buffer.Unread())
            case NonIPv4 => frame == null && err == NotIPv4 && buffer.Unread() == old(buffer.Unread())
            case HeaderTooShort => frame == null && err == HeaderLenTooSmall && buffer.Unread() == old(buffer.Unread())
            case Panic(used) => frame == null && err == Panicked && buffer.Unread() == old(buffer.Unread())[used..]
            case Parsed(f, used) =>
              frame != null && frame.Value() == f && buffer.Unread() == old(buffer.Unread())[used..]
    ensures var b := old(buffer.Unread());
            && (err == NotIPv4 <==> |b| >= 4 && !(0x40 <= b[0] <= 0x4f))
            && (err == HeaderLenTooSmall <==> |b| >= 4 && 0x40 <= b[0] <= 0x44)
            && err != SendFailed
  {
    frame, err := null, NoError;
    ghost var b := buffer.Unread();
    OutcomeIff(b);
    var readable := buffer.ReadableBytes();
    if readable < 4 {
      return;
    }
    buffer.Mark();
    var first4Bytes := buffer.Read(4);
    buffer.Recover();
    assert buffer.Unread() == b && first4Bytes == b[..4];
    var version: byte := first4Bytes[0] / 16;
    if version != 4 {
      err := NotIPv4;
      return;
    }
    var headerLen := first4Bytes[0] % 16;
    if headerLen < MINIMUM_HEADER_LEN {
      err := HeaderLenTooSmall;
      return;
    }
    if readable < headerLen * 4 {
      return;
    }
    var totalLen := BytesToUint16(first4Bytes, 2);
    assert totalLen == BytesToUint16(b, 2);
    if readable < totalLen {
      return;
    }
    var bytes := buffer.Read(totalLen);
    assert bytes == b[..totalLen];
    if totalLen < 4 * headerLen {
      err := Panicked;
      return;
    }
    var options := ParseOptions(bytes, headerLen);
    frame := new FrameObject(Frame(version, headerLen, bytes[1], totalLen, BytesToUint16(bytes, 4), bytes[6] / 32,
      bytes[6] as int % 32 * 256 + bytes[7] as int, bytes[8], bytes[9], BytesToUint16(bytes, 10),
      bytes[12..16], bytes[16..20], options, bytes[4 * headerLen..]));
  }

  /** The option lines of the header, filled into an array in place. */
  method ParseOptions(bytes: seq<byte>, headerLen: nat) returns (options: seq<FrameOption>)
    requires 5 <= headerLen && 4 * headerLen <= |bytes|
    ensures options == OptionsIn(bytes, headerLen)
  {
    var lines := new FrameOption[headerLen - 5](_ => FrameOption(0, 0));
    for line := MINIMUM_HEADER_LEN to headerLen
      invariant lines.Length == headerLen - 5
      invariant forall k :: 0 <= k < line - 5 ==> lines[k] == OptionsIn(bytes, headerLen)[k]
    {
      var index := line * 4;
      lines[line - MINIMUM_HEADER_LEN] := FrameOption(BytesToUint16(bytes, index), BytesToUint16(bytes, index + 2));
    }
    options := lines[..];
  }

  class TunIf {
    /** What has been put into the pipe towards the peer, and what the raw socket has been asked to send. */
    var receivePipe: seq<seq<byte>>
    var rawSocket: seq<(seq<byte>, seq<byte>)>

    constructor ()
      ensures receivePipe == [] && rawSocket == []
    {
      receivePipe, rawSocket := [], [];
    }

    /** One round of the inner loop that TunReceiveLoop, TunWriteLoop and Write all contain. */
    method NextFrame(buffer: ByteBuffer) returns (bytes: seq<byte>, target: seq<byte>, more: bool, err: ParseError)
      requires buffer.Valid()
      modifies buffer
      ensures buffer.Valid()
      ensures more ==>
                && err == NoError && |buffer.Unread()| < |old(buffer.Unread())|
                && |bytes| >= 20 && target == bytes[16..20]
                && Drain(old(buffer.Unread())) == ([bytes] + Drain(buffer.Unread()).0, Drain(buffer.Unread()).1)
                && EndOf(old(buffer.Unread())) == EndOf(buffer.Unread())
      ensures !more ==>
                && Drain(old(buffer.Unread())) == ([], if err == Panicked then Crashed else Running(buffer.Unread()))
                && (err == NoError <==> EndOf(old(buffer.Unread())) == Waiting)
                && (err == Panicked <==> EndOf(old(buffer.Unread())) == Dead)
                && err != SendFailed
    {
      hide Parse, Printed;
      ghost var b := buffer.Unread();
      var frame;
      bytes, target, more := [], [], false;
      frame, err := ParseIPFrame(buffer);
      if err == Panicked {
        return;
      }
      if err != NoError {
        buffer.Clean();
        return;
      }
      if frame == null {
        return;
      }
      ParseUsed(b);
      TargetInPrint(b);
      target := frame.target;
      assert frame.Value().target == target;
      bytes := frame.ToBytes();
      more := true;
    }

    /** The inner loop as far as it parses and prints; where its frames go is up to the callers. */
    method ForwardFrames(buffer: ByteBuffer) returns (sent: seq<seq<byte>>, targets: seq<seq<byte>>, err: ParseError)
      requires buffer.Valid()
      modifies buffer
      ensures buffer.Valid()
      ensures sent == Drain(old(buffer.Unread())).0
      ensures Drain(old(buffer.Unread())).1 == if err == Panicked then Crashed else Running(buffer.Unread())
      ensures |targets| == |sent| && forall i :: 0 <= i < |sent| ==> |sent[i]| >= 20 && targets[i] == sent[i][16..20]
      ensures err == NoError <==> EndOf(old(buffer.Unread())) == Waiting
      ensures err == Panicked <==> EndOf(old(buffer.Unread())) == Dead
    {
      hide Drain, EndOf;
      ghost var start := buffer.Unread();
      sent, targets := [], [];
      assert [] + Drain(start).0 == Drain(start).0;
      while true
        invariant buffer.Valid()
        invariant Drain(start) == (sent + Drain(buffer.Unread()).0, Drain(buffer.Unread()).1)
        invariant EndOf(start) == EndOf(buffer.Unread())
        invariant |targets| == |sent|
        invariant forall i :: 0 <= i < |sent| ==> |sent[i]| >= 20 && targets[i] == sent[i][16..20]
        decreases |buffer.Unread()|
      {
        var bytes, target, more;
        bytes, target, more, err := NextFrame(buffer);
        if !more {
          return;
        }
        assert sent + ([bytes] + Drain(buffer.Unread()).0) == (sent + [bytes]) + Drain(buffer.Unread()).0;
        sent, targets := sent + [bytes], targets + [target];
      }
    }

    /** Forwards what the device delivers, read by read, into the pipe towards the peer. */
    method TunReceiveLoop(chunks: seq<seq<byte>>) returns (crashed: bool, left: seq<byte>)
      modifies this`receivePipe
      ensures receivePipe == old(receivePipe) + Loop(Running([]), chunks).0
      ensures Loop(Running([]), chunks).1 == if crashed then Crashed else Running(left)
    {
      hide Drain, EndOf;
      var buffer := new ByteBuffer();
      crashed, left := false, [];
      for k := 0 to |chunks|
        invariant fresh(buffer) && buffer.Valid()
        invariant Loop(Running([]), chunks[..k]).1 == Running(buffer.Unread())
        invariant receivePipe == old(receivePipe) + Loop(Running([]), chunks[..k]).0
      {
        buffer.Write(chunks[k]);
        LoopStep(Running([]), chunks, k);
        var sent, _, err := ForwardFrames(buffer);
        receivePipe := receivePipe + sent;
        if err == Panicked {
          CrashStays(Running([]), chunks, k + 1);
          crashed := true;
          return;
        }
      }
      assert chunks[..|chunks|] == chunks;
      left := buffer.content[buffer.readIndex..];
    }

    /** Sends what comes from the peer, packet by packet, each frame to the address in its own header. */
    method TunWriteLoop(packets: seq<seq<byte>>) returns (crashed: bool, left: seq<byte>)
      modifies this`rawSocket
      ensures rawSocket == old(rawSocket) + Addressed(Loop(Running([]), packets).0)
      ensures Loop(Running([]), packets).1 == if crashed then Crashed else Running(left)
    {
      hide Drain, EndOf, Loop, Addressed;
      AddressedNone();
      LoopStart(Running([]));
      var buffer := new ByteBuffer();
      crashed, left := false, [];
      for k := 0 to |packets|
        invariant fresh(buffer) && buffer.Valid()
        invariant Loop(Running([]), packets[..k]).1 == Running(buffer.Unread())
        invariant rawSocket == old(rawSocket) + Addressed(Loop(Running([]), packets[..k]).0)
      {
        buffer.Write(packets[k]);
        LoopStep(Running([]), packets, k);
        var sent, targets, err := ForwardFrames(buffer);
        AddressedAppend(Loop(Running([]), packets[..k]).0, sent);
        var addressed := Zip(targets, sent);
        ZipAddressed(targets, sent);
        rawSocket := rawSocket + addressed;
        if err == Panicked {
          CrashStays(Running([]), packets, k + 1);
          crashed := true;
          return;
        }
      }
      assert packets[..|packets|] == packets;
      left := buffer.content[buffer.readIndex..];
    }

    /**
      One packet through a buffer of its own; what is incomplete at its end is lost. fails says whether
      the i-th send of this call fails, which ends the call.
     */
    method Write(packet: seq<byte>, fails: nat -> bool) returns (n: nat, err: ParseError)
      modifies this`rawSocket
      ensures n == |packet|
      ensures var sent := Drain(packet).0;
              var good := FirstFailure(fails, 0, |sent|);
              if good < |sent| then
                err == SendFailed && rawSocket == old(rawSocket) + Addressed(sent[..good + 1])
              else
                rawSocket == old(rawSocket) + Addressed(sent)
                && (err == NoError <==> EndOf(packet) == Waiting) && (err == Panicked <==> EndOf(packet) == Dead)
                && err != SendFailed
    {
      hide Drain, EndOf, Addressed;
      n := |packet|;
      var buffer := new ByteBuffer();
      buffer.Write(packet);
      ghost var all := Drain(packet).0;
      ghost var tried: seq<seq<byte>> := [];
      var count := 0;
      assert buffer.Unread() == packet && [] + Drain(packet).0 == all;
      AddressedNone();
      while true
        invariant fresh(buffer) && buffer.Valid() && count == |tried|
        invariant all == tried + Drain(buffer.Unread()).0
        invariant EndOf(packet) == EndOf(buffer.Unread())
        invariant forall j: nat :: j < count ==> !fails(j)
        invariant rawSocket == old(rawSocket) + Addressed(tried)
        decreases |buffer.Unread()|
      {
        var bytes, target, more;
        bytes, target, more, err := NextFrame(buffer);
        if !more {
          assert all == tried;
          return;
        }
        AddressedAppend(tried, [bytes]);
        AddressedOne(bytes);
        assert all == (tried + [bytes]) + Drain(buffer.Unread()).0;
        rawSocket := rawSocket + [(target, bytes)];
        tried := tried + [bytes];
        if fails(count) {
          err := SendFailed;
          assert all[..count + 1] == tried;
          return;
        }
        count := count + 1;
      }
    }
  }

  /** The first number from i below n that fails, or n. */
  function FirstFailure(fails: nat -> bool, i: nat, n: nat): (k: nat)
    requires i <= n
    ensures i <= k <= n && (k < n ==> fails(k)) && forall j: nat :: i <= j < k ==> !fails(j)
    decreases n - i
  {
    if i == n || fails(i) then i else FirstFailure(fails, i + 1, n)
  }

  /** Each frame with the destination the socket is given: bytes 16 to 19 of the frame itself. */
  function Addressed(sent: seq<seq<byte>>): seq<(seq<byte>, seq<byte>)> {
    seq(|sent|, i requires 0 <= i < |sent| => (if |sent[i]| >= 20 then sent[i][16..20] else [], sent[i]))
  }

  function Zip<A, B>(a: seq<A>, b: seq<B>): seq<(A, B)>
    requires |a| == |b|
  {
    seq(|a|, i requires 0 <= i < |a| => (a[i], b[i]))
  }

  lemma ZipAddressed(targets: seq<seq<byte>>, sent: seq<seq<byte>>)
    requires |targets| == |sent| && forall i :: 0 <= i < |sent| ==> |sent[i]| >= 20 && targets[i] == sent[i][16..20]
    ensures Zip(targets, sent) == Addressed(sent)
  {
  }

  lemma AddressedAppend(a: seq<seq<byte>>, b: seq<seq<byte>>)
    ensures Addressed(a + b) == Addressed(a) + Addressed(b)
  {
  }

  lemma AddressedNone()
    ensures Addressed([]) == []
  {
  }

  lemma AddressedOne(bytes: seq<byte>)
    requires |bytes| >= 20
    ensures Addressed([bytes]) == [(bytes[16..20], bytes)]
  {
  }

  lemma TargetInPrint(b: seq<byte>)
    requires Parse(b).Parsed?
    ensures |Printed(Parse(b).frame)| >= 20 && Printed(Parse(b).frame)[16..20] == Parse(b).frame.target
  {
    hide Parse, Printed;
    ParsedIsWellFormed(b);
    PrintedLayout(Parse(b).frame);
  }

  lemma LoopStart(state: LoopState)
    ensures Loop(state, []) == ([], state)
  {
  }

  lemma LoopStep(state: LoopState, chunks: seq<seq<byte>>, k: nat)
    requires k < |chunks|
    ensures var (sent, state') := Loop(state, chunks[..k]);
            var (more, state'') := Feed(state', chunks[k]);
            Loop(state, chunks[..k + 1]) == (sent + more, state'')
  {
    hide Drain;
    assert chunks[..k + 1][..k] == chunks[..k];
  }

  /** After a panic nothing more is forwarded. */
  lemma {:induction false} CrashStays(state: LoopState, chunks: seq<seq<byte>>, k: nat)
    requires k <= |chunks| && Loop(state, chunks[..k]).1 == Crashed
    ensures Loop(state, chunks) == Loop(state, chunks[..k])
    decreases |chunks| - k
  {
    hide Drain;
    if k == |chunks| {
      assert chunks[..k] == chunks;
    } else {
      LoopStep(state, chunks, k);
      assert Loop(state, chunks[..k]).0 + [] == Loop(state, chunks[..k]).0;
      CrashStays(state, chunks, k + 1);
    }
  }
}
