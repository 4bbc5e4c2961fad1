/**
  The two forwarding loops of tunvpn/tun/tun.go. Each keeps a byte buffer over its whole life, adds
  every chunk it gets to it, and forwards all complete frames; a chunk that brings a broken frame
  makes it throw the buffer away.
 */
module TunLoops {
  import opened Bytes
  import opened IPFrame

  datatype LoopState = Running(pending: seq<byte>) | Crashed

  /** How draining a buffer ends: waiting for more bytes, clearing the buffer, or a panic. */
  datatype End = Waiting | Rejected | Dead

  /** The inner loop: forward frames until the front is incomplete or broken. */
  function Drain(b: seq<byte>): (seq<seq<byte>>, LoopState)
    decreases |b|
  {
    match Parse(b)
    case NeedMore => ([], Running(b))
    case NonIPv4 => ([], Running([]))
    case HeaderTooShort => ([], Running([]))
    case Panic(_) => ([], Crashed)
    case Parsed(f, used) =>
      var (sent, state) := Drain(b[used..]);
      ([Printed(f)] + sent, state)
  }

  function EndOf(b: seq<byte>): End
    decreases |b|
  {
    match Parse(b)
    case NeedMore => Waiting
    case NonIPv4 => Rejected
    case HeaderTooShort => Rejected
    case Panic(_) => Dead
    case Parsed(_, used) => EndOf(b[used..])
  }

  /** One chunk arriving in a loop state. */
  function Feed(state: LoopState, chunk: seq<byte>): (seq<seq<byte>>, LoopState) {
    match state
    case Crashed => ([], Crashed)
    case Running(pending) => Drain(pending + chunk)
  }

  function Loop(state: LoopState, chunks: seq<seq<byte>>): (seq<seq<byte>>, LoopState) {
    if chunks == [] then ([], state)
    else
      var (sent, state') := Loop(state, chunks[..|chunks| - 1]);
      var (more, state'') := Feed(state', chunks[|chunks| - 1]);
      (sent + more, state'')
  }

  function Concat(chunks: seq<seq<byte>>): seq<byte> {
    if chunks == [] then [] else Concat(chunks[..|chunks| - 1]) + chunks[|chunks| - 1]
  }

  predicate Rejects(b: seq<byte>) {
    Parse(b).NonIPv4? || Parse(b).HeaderTooShort?
  }

  /** Once parsing has decided, later bytes do not change the decision. */
  lemma ParseExtends(b: seq<byte>, more: seq<byte>)
    requires !Parse(b).NeedMore?
    ensures Parse(b + more) == Parse(b)
  {
    var c := b + more;
    assert c[0] == b[0];
    if !Rejects(b) {
      assert BytesToUint16(c, 2) == BytesToUint16(b, 2);
      var totalLen := BytesToUint16(b, 2);
      assert c[..totalLen] == b[..totalLen];
    }
  }

  /** Draining b followed by more is draining b, then what is left of it together with more. */
  lemma {:induction false} DrainAppend(b: seq<byte>, more: seq<byte>)
    ensures match EndOf(b)
            case Waiting => Drain(b).1.Running?
                            && Drain(b + more) ==
                               (Drain(b).0 + Drain(Drain(b).1.pending + more).0, Drain(Drain(b).1.pending + more).1)
                            && EndOf(b + more) == EndOf(Drain(b).1.pending + more)
            case Rejected => Drain(b).1 == Running([]) && Drain(b + more) == Drain(b) && EndOf(b + more) == Rejected
            case Dead => Drain(b).1 == Crashed && Drain(b + more) == Drain(b) && EndOf(b + more) == Dead
    decreases |b|
  {
    hide Parse, Printed;
    if Parse(b).NeedMore? {
      assert [] + Drain(b + more).0 == Drain(b + more).0;
    } else {
      ParseExtends(b, more);
      if Parse(b).Parsed? {
        var used := Parse(b).used;
        ParseUsed(b);
        assert (b + more)[used..] == b[used..] + more;
        DrainAppend(b[used..], more);
        if EndOf(b) == Waiting {
          var first, rest, tail := [Printed(Parse(b).frame)], Drain(b[used..]).0, Drain(Drain(b).1.pending + more).0;
          assert (first + rest) + tail == first + (rest + tail);
        }
      }
    }
  }

  lemma ParseUsed(b: seq<byte>)
    requires Parse(b).Parsed?
    ensures 20 <= Parse(b).used <= |b|
  {
  }

  /**
    Cutting a chunk in two changes nothing exactly when the first part leads to no rejection, or
    the second part is empty or rejected by itself: a rejection throws away only what has arrived.
   */
  lemma SplitChunkIff(pending: seq<byte>, x: seq<byte>, y: seq<byte>)
    ensures var (sent1, state1) := Feed(Running(pending), x);
            var (sent2, state2) := Feed(state1, y);
            Feed(Running(pending), x + y) == (sent1 + sent2, state2) <==>
            (EndOf(pending + x) != Rejected || y == [] || Rejects(y))
  {
    hide Parse, Printed;
    assert (pending + x) + y == pending + (x + y);
    DrainAppend(pending + x, y);
    var (sent1, state1) := Feed(Running(pending), x);
    var (sent2, state2) := Feed(state1, y);
    match EndOf(pending + x) {
      case Waiting =>
      case Dead => assert sent1 + [] == sent1;
      case Rejected =>
        assert [] + y == y;
        NothingSent(y);
        assert sent1 + sent2 == sent1 <==> sent2 == [] by { assert |sent1 + sent2| == |sent1| + |sent2|; }
    }
  }

  /** Four zero bytes and then 0x45: read apart, the 0x45 stays buffered; read together, it is thrown away. */
  lemma RejectionForgets()
    ensures Loop(Running([]), [[0, 0, 0, 0], [0x45]]) == ([], Running([0x45]))
    ensures Loop(Running([]), [[0, 0, 0, 0, 0x45]]) == ([], Running([]))
  {
    hide Printed;
    var zeros: seq<byte> := [0, 0, 0, 0];
    var version: seq<byte> := [0x45];
    LoopOnce(Running([]), [], zeros);
    LoopOnce(Running([]), [zeros], version);
    LoopOnce(Running([]), [], zeros + version);
    assert [] + [zeros] == [zeros] && [zeros] + [version] == [zeros, version];
    assert zeros + version == [0, 0, 0, 0, 0x45] && [] + [zeros + version] == [zeros + version];
    assert [] + zeros == zeros && [] + version == version && [] + (zeros + version) == zeros + version;
    assert Parse(zeros) == NonIPv4 && Parse(zeros + version) == NonIPv4 && Parse(version) == NeedMore;
  }

  lemma LoopOnce(state: LoopState, chunks: seq<seq<byte>>, chunk: seq<byte>)
    ensures var (sent, state') := Loop(state, chunks);
            var (more, state'') := Feed(state', chunk);
            Loop(state, chunks + [chunk]) == (sent + more, state'')
  {
    hide Drain;
    assert (chunks + [chunk])[..|chunks|] == chunks;
  }

  lemma NothingSent(y: seq<byte>)
    ensures Drain(y) == ([], Running([])) <==> y == [] || Rejects(y)
  {
    hide Printed;
  }

  /** The stream is not rejected before its last byte has arrived. */
  predicate UnrejectedBeforeEnd(b: seq<byte>) {
    b == [] || EndOf(b[..|b| - 1]) != Rejected
  }

  lemma EarlierUnrejected(a: seq<byte>, more: seq<byte>)
    requires more != [] && UnrejectedBeforeEnd(a + more)
    ensures EndOf(a) != Rejected
  {
    hide Drain, EndOf;
    DrainAppend(a, more[..|more| - 1]);
    assert (a + more)[..|a + more| - 1] == a + more[..|more| - 1];
  }

  lemma UnrejectedPrefix(a: seq<byte>, more: seq<byte>)
    requires UnrejectedBeforeEnd(a + more)
    ensures UnrejectedBeforeEnd(a)
  {
    hide EndOf;
    if a != [] {
      var x := a[..|a| - 1];
      assert x + (a[|a| - 1..] + more) == a + more;
      EarlierUnrejected(x, a[|a| - 1..] + more);
    }
  }

  lemma {:induction false} ChunksOfUnrejected(chunks: seq<seq<byte>>)
    requires UnrejectedBeforeEnd(Concat(chunks))
    ensures Loop(Running([]), chunks) == Drain(Concat(chunks))
    decreases |chunks|
  {
    hide Parse, Printed, UnrejectedBeforeEnd, Drain, EndOf;
    DrainEmpty();
    if chunks != [] {
      var init, last := chunks[..|chunks| - 1], chunks[|chunks| - 1];
      UnrejectedPrefix(Concat(init), last);
      ChunksOfUnrejected(init);
      if last == [] {
        assert Concat(init) + last == Concat(init);
        DrainAgain(Concat(init));
      } else {
        EarlierUnrejected(Concat(init), last);
        DrainAppend(Concat(init), last);
        assert Drain(Concat(init)).0 + [] == Drain(Concat(init)).0;
      }
    }
  }

  /** An empty chunk forwards nothing and leaves the state as it is. */
  lemma {:induction false} DrainAgain(b: seq<byte>)
    ensures Feed(Drain(b).1, []) == ([], Drain(b).1)
    ensures Drain(b).0 + [] == Drain(b).0
    decreases |b|
  {
    hide Printed;
    if Parse(b).Parsed? {
      ParseUsed(b);
      DrainAgain(b[Parse(b).used..]);
    } else {
      assert b + [] == b && Drain(b).0 == [];
    }
  }

  /**
    Chunking independence: a byte stream gives the same forwarded frames and the same final state
    however it is cut into chunks, exactly when it is not rejected before its last byte has arrived.
   */
  lemma ChunkingIff(b: seq<byte>)
    ensures (forall chunks :: Concat(chunks) == b ==> Loop(Running([]), chunks) == Drain(b)) <==>
            (b == [] || EndOf(b[..|b| - 1]) != Rejected)
  {
    hide Parse, Printed, Drain, EndOf, Loop, Concat;
    if UnrejectedBeforeEnd(b) {
      forall chunks | Concat(chunks) == b ensures Loop(Running([]), chunks) == Drain(b) {
        ChunksOfUnrejected(chunks);
      }
    } else {
      CutLastByte(b);
    }
  }

  lemma ConcatTwo(x: seq<byte>, y: seq<byte>)
    ensures Concat([x, y]) == x + y
  {
    var one := [x];
    assert [x, y][..1] == one && one[..0] == [] && Concat(one) == [] + x;
  }

  lemma LoopTwo(x: seq<byte>, y: seq<byte>)
    ensures Loop(Running([]), [x, y]).1 == Feed(Drain(x).1, y).1
  {
    hide Drain;
    LoopOnce(Running([]), [], x);
    LoopOnce(Running([]), [x], y);
    assert [] + [x] == [x] && [x] + [y] == [x, y] && [] + x == x;
  }

  lemma OneByteWaits(y: seq<byte>)
    requires |y| == 1
    ensures Feed(Running([]), y) == ([], Running(y))
  {
    hide Printed;
    assert [] + y == y && Parse(y) == NeedMore;
  }

  /** Cut before its last byte, a stream rejected by then leaves that byte in the buffer. */
  lemma CutLastByte(b: seq<byte>)
    requires !UnrejectedBeforeEnd(b)
    ensures var chunks := [b[..|b| - 1], b[|b| - 1..]];
            Concat(chunks) == b && Loop(Running([]), chunks) != Drain(b)
  {
    hide Parse, Printed, Drain, EndOf, Loop, Concat, Feed;
    var x, y := b[..|b| - 1], b[|b| - 1..];
    assert x + y == b;
    ConcatTwo(x, y);
    DrainAppend(x, y);
    LoopTwo(x, y);
    OneByteWaits(y);
  }

  /** In particular the cut does not matter for a stream that is not rejected at all. */
  lemma ChunkingIndependence(chunks: seq<seq<byte>>)
    requires EndOf(Concat(chunks)) != Rejected
    ensures Loop(Running([]), chunks) == Drain(Concat(chunks))
  {
    hide Drain, EndOf, Loop, Concat;
    var b := Concat(chunks);
    if b != [] {
      DrainAppend(b[..|b| - 1], b[|b| - 1..]);
      assert b[..|b| - 1] + b[|b| - 1..] == b;
    }
    ChunksOfUnrejected(chunks);
  }

  lemma DrainEmpty()
    ensures Drain([]) == ([], Running([])) && EndOf([]) == Waiting
  {
  }

  /**
    A loop with nothing buffered throws a chunk away exactly when it has at least four bytes of which
    the first is none of 0x45 to 0x4f; so after an IPv6 packet, say, it goes on as if nothing had come.
   */
  lemma RejectionIff(chunk: seq<byte>)
    ensures Feed(Running([]), chunk) == ([], Running([])) <==>
            chunk == [] || (|chunk| >= 4 && !(0x45 <= chunk[0] <= 0x4f))
    ensures Rejects(chunk) <==> |chunk| >= 4 && !(0x45 <= chunk[0] <= 0x4f)
  {
    hide Parse, Printed;
    OutcomeIff(chunk);
    NothingSent(chunk);
    assert [] + chunk == chunk;
  }

  /** In general the loop rejects exactly when such bytes follow the whole frames it could forward. */
  lemma {:induction false} RejectedTail(b: seq<byte>) returns (at: nat)
    ensures at <= |b| && (EndOf(b) == Rejected <==> |b| - at >= 4 && !(0x45 <= b[at] <= 0x4f))
    ensures Drain(b) == (Drain(b[..at]).0, Drain(b[at..]).1) && !Parse(b[at..]).Parsed?
    ensures EndOf(b[..at]) == Waiting && Drain(b[..at]).1 == Running([])
    decreases |b|
  {
    hide Parse, Printed;
    if Parse(b).Parsed? {
      ParseUsed(b);
      var used := Parse(b).used;
      var rest := RejectedTail(b[used..]);
      at := used + rest;
      FrontParsed(b, at);
      assert b[used..][..rest] == b[..at][used..] && b[used..][rest..] == b[at..];
    } else {
      at := 0;
      OutcomeIff(b);
      DrainEmpty();
      assert b[..0] == [] && b[0..] == b;
    }
  }

  lemma FrontParsed(b: seq<byte>, at: nat)
    requires Parse(b).Parsed? && Parse(b).used <= at <= |b|
    ensures Parse(b[..at]) == Parse(b)
  {
    assert b[..at][..Parse(b).used] == b[..Parse(b).used];
  }

  lemma RejectedAlone(bad: seq<byte>)
    requires |bad| >= 4 && !(0x45 <= bad[0] <= 0x4f)
    ensures Loop(Running([]), [bad]) == ([], Running([]))
  {
    hide Drain, Feed;
    RejectionIff(bad);
    var none: seq<seq<byte>> := [];
    LoopOnce(Running([]), none, bad);
    assert none + [bad] == [bad] && none + none == none;
  }

  /** What follows a rejected chunk is forwarded as if the loop had just started. */
  lemma {:induction false} RejectedThenFrames(bad: seq<byte>, chunks: seq<seq<byte>>)
    requires |bad| >= 4 && !(0x45 <= bad[0] <= 0x4f)
    ensures Loop(Running([]), [bad] + chunks) == Loop(Running([]), chunks)
    decreases |chunks|
  {
    hide Drain, Feed;
    if chunks == [] {
      RejectedAlone(bad);
      assert [bad] + chunks == [bad];
    } else {
      var init := chunks[..|chunks| - 1];
      RejectedThenFrames(bad, init);
      assert ([bad] + chunks)[..|chunks|] == [bad] + init;
    }
  }

  // ------------------------------------------------- streams of whole frames

  /** The bytes of one whole frame, whatever its checksum field says. */
  ghost predicate Whole(raw: seq<byte>) {
    Parse(raw).Parsed? && Parse(raw).used == |raw|
  }

  /** What a whole frame is forwarded as: its own bytes with the checksum recomputed. */
  function Forwarded(raw: seq<byte>): seq<byte> {
    match Parse(raw)
    case Parsed(f, _) => Printed(f)
    case _ => []
  }

  function ForwardedAll(raws: seq<seq<byte>>): seq<seq<byte>> {
    seq(|raws|, i requires 0 <= i < |raws| => Forwarded(raws[i]))
  }

  lemma ProperPrefixWaits(raw: seq<byte>, k: nat)
    requires Whole(raw) && k < |raw|
    ensures Parse(raw[..k]) == NeedMore
  {
  }

  /**
    A stream of whole frames followed by an unfinished one forwards exactly those frames, in order,
    and keeps exactly the unfinished part.
   */
  lemma {:induction false} DrainFrames(raws: seq<seq<byte>>, next: seq<byte>, k: nat)
    requires forall i :: 0 <= i < |raws| ==> Whole(raws[i])
    requires Whole(next) && k < |next|
    ensures Drain(Concat(raws) + next[..k]) == (ForwardedAll(raws), Running(next[..k]))
    ensures EndOf(Concat(raws) + next[..k]) == Waiting
  {
    hide Parse, Printed;
    if raws == [] {
      assert Concat(raws) + next[..k] == next[..k];
      ProperPrefixWaits(next, k);
    } else {
      var init, last := raws[..|raws| - 1], raws[|raws| - 1];
      DrainFrames(init, last, 0);
      assert Concat(init) + last[..0] == Concat(init);
      DrainAppend(Concat(init), last + next[..k]);
      assert Concat(raws) + next[..k] == Concat(init) + (last + next[..k]);
      OneFrame(last, next, k);
      assert ForwardedAll(raws) == ForwardedAll(init) + [Forwarded(last)];
      assert last[..0] + (last + next[..k]) == last + next[..k];
    }
  }

  lemma OneFrame(raw: seq<byte>, next: seq<byte>, k: nat)
    requires Whole(raw) && Whole(next) && k < |next|
    ensures Drain(raw + next[..k]) == ([Forwarded(raw)], Running(next[..k])) && EndOf(raw + next[..k]) == Waiting
  {
    hide Parse, Printed;
    ParseExtends(raw, next[..k]);
    ProperPrefixWaits(next, k);
    assert (raw + next[..k])[|raw|..] == next[..k];
    assert [Forwarded(raw)] + [] == [Forwarded(raw)];
  }

  /** The receive loop on any chunks of such a stream. */
  lemma ReceiveFrames(chunks: seq<seq<byte>>, raws: seq<seq<byte>>, next: seq<byte>, k: nat)
    requires forall i :: 0 <= i < |raws| ==> Whole(raws[i])
    requires Whole(next) && k < |next| && Concat(chunks) == Concat(raws) + next[..k]
    ensures Loop(Running([]), chunks) == (ForwardedAll(raws), Running(next[..k]))
  {
    DrainFrames(raws, next, k);
    ChunkingIndependence(chunks);
  }

  // -------------------------------------------------- from one loop to the other

  /** Everything a loop forwards is a whole frame that would be forwarded unchanged. */
  ghost predicate Settled(bytes: seq<byte>) {
    Whole(bytes) && Forwarded(bytes) == bytes
  }

  lemma PrintedSettles(b: seq<byte>)
    requires Parse(b).Parsed?
    ensures Settled(Printed(Parse(b).frame))
  {
    hide Parse, Printed;
    ParsedIsWellFormed(b);
    var p := Printed(Parse(b).frame);
    PrintedIsStable(Parse(b).frame, []);
    assert p + [] == p;
  }

  lemma {:induction false} DrainSettles(b: seq<byte>)
    ensures forall i :: 0 <= i < |Drain(b).0| ==> Settled(Drain(b).0[i])
    decreases |b|
  {
    hide Parse, Printed, Settled;
    if Parse(b).Parsed? {
      ParseUsed(b);
      PrintedSettles(b);
      DrainSettles(b[Parse(b).used..]);
    }
  }

  lemma {:induction false} LoopSettles(state: LoopState, chunks: seq<seq<byte>>)
    ensures forall i :: 0 <= i < |Loop(state, chunks).0| ==> Settled(Loop(state, chunks).0[i])
  {
    hide Parse, Printed, Settled, Drain;
    if chunks != [] {
      var state' := Loop(state, chunks[..|chunks| - 1]).1;
      LoopSettles(state, chunks[..|chunks| - 1]);
      if state'.Running? {
        DrainSettles(state'.pending + chunks[|chunks| - 1]);
      }
    }
  }

  /**
    End to end: whatever arrives at one loop, in whatever chunks and even if it is rejected or the
    loop crashes on the way, what it forwarded passes through the other loop byte for byte, again
    in whatever chunks, and leaves nothing behind.
   */
  lemma RelayIsTransparent(input: seq<seq<byte>>, rechunked: seq<seq<byte>>)
    requires Concat(rechunked) == Concat(Loop(Running([]), input).0)
    ensures Loop(Running([]), rechunked) == (Loop(Running([]), input).0, Running([]))
  {
    hide Parse, Printed, Drain, Loop;
    var sent := Loop(Running([]), input).0;
    LoopSettles(Running([]), input);
    if sent == [] {
      DrainEmpty();
    } else {
      DrainFrames(sent, sent[0], 0);
      assert Concat(sent) + sent[0][..0] == Concat(sent);
      assert ForwardedAll(sent) == sent;
    }
    ChunkingIndependence(rechunked);
  }
}
