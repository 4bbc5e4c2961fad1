/**
  The port range allocator of libp2p/test/port/port_allocator.go: the scan for a free port as a
  class, and the filler, the channel and any number of clients as a step system.
 */
module PortAllocator {
  import opened Options

  const PORTS_BUF_SIZE: nat := 16

  /** The p-th index that a scan starting at j looks at: j, j+1, ..., size-1, 0, ..., j-1. */
  function ScanIndex(size: nat, j: nat, p: nat): (i: nat)
    requires j < size && p < size
    ensures i < size
  {
    if j + p < size then j + p else j + p - size
  }

  /** The first clear bit in scan order at or after position p, or -1. */
  function FirstFree(used: set<int>, size: nat, j: nat, p: nat): int
    requires j < size && p <= size
    decreases size - p
  {
    if p == size then -1
    else if ScanIndex(size, j, p) !in used then ScanIndex(size, j, p)
    else FirstFree(used, size, j, p + 1)
  }

  predicate Full(used: set<int>, size: nat) {
    forall i :: 0 <= i < size ==> i in used
  }

  lemma {:induction false} FirstFreeFrom(used: set<int>, size: nat, j: nat, p: nat)
    requires j < size && p <= size
    ensures var r := FirstFree(used, size, j, p);
            if r == -1 then forall q :: p <= q < size ==> ScanIndex(size, j, q) in used
            else 0 <= r < size && r !in used
                 && exists q :: p <= q < size && ScanIndex(size, j, q) == r
                                && forall q' :: p <= q' < q ==> ScanIndex(size, j, q') in used
    decreases size - p
  {
    if p < size && ScanIndex(size, j, p) in used {
      FirstFreeFrom(used, size, j, p + 1);
      var r := FirstFree(used, size, j, p);
      if r != -1 {
        var q :| p + 1 <= q < size && ScanIndex(size, j, q) == r
                 && forall q' :: p + 1 <= q' < q ==> ScanIndex(size, j, q') in used;
        assert forall q' :: p <= q' < q ==> ScanIndex(size, j, q') in used;
      }
    }
  }

  /** From every random start the scan fails exactly when all bits are set; else it finds a clear bit. */
  lemma ScanComplete(used: set<int>, size: nat, j: nat)
    requires j < size
    ensures FirstFree(used, size, j, 0) == -1 <==> Full(used, size)
    ensures FirstFree(used, size, j, 0) != -1 ==>
              0 <= FirstFree(used, size, j, 0) < size && FirstFree(used, size, j, 0) !in used
  {
    FirstFreeFrom(used, size, j, 0);
    if FirstFree(used, size, j, 0) == -1 {
      forall i | 0 <= i < size ensures i in used {
        var p := if j <= i then i - j else i + size - j;
        assert ScanIndex(size, j, p) == i;
      }
    }
  }

  /** How many steps after the start j the scan comes to index i, wrapping around at size. */
  function Distance(size: nat, j: nat, i: nat): nat
    requires i < size && j < size
  {
    if j <= i then i - j else i + size - j
  }

  /** The scan takes the clear bit that comes first from its random start on, wrapping around. */
  lemma ScanTakesNext(used: set<int>, size: nat, j: nat, i: nat)
    requires j < size && i < size && i !in used
    ensures var r := FirstFree(used, size, j, 0);
            0 <= r < size && r !in used && Distance(size, j, r) <= Distance(size, j, i)
  {
    ScanComplete(used, size, j);
    FirstFreeFrom(used, size, j, 0);
    var r := FirstFree(used, size, j, 0);
    assert r != -1;
    var q :| 0 <= q < size && ScanIndex(size, j, q) == r && forall q' :: 0 <= q' < q ==> ScanIndex(size, j, q') in used;
    var p := if j <= i then i - j else i + size - j;
    assert ScanIndex(size, j, p) == i;
    assert Distance(size, j, r) == q && Distance(size, j, i) == p;
  }

  class RangeAllocator {
    const base: int
    const size: nat
    var used: set<int>
    var ports: seq<int>

    /** The object shows the bitset and the channel of a state of the step system below. */
    ghost predicate Shows(s: State)
      reads this
    {
      used == s.used && ports == s.buffer
    }

    constructor (base: int, size: nat)
      requires base != 0 && size != 0
      ensures this.base == base && this.size == size && Shows(START)
    {
      this.base, this.size, used, ports := base, size, {}, [];
    }

    /**
      One round of the filler; with a full channel the send would wait. A port of value -1, which
      only a negative base gives, is taken for exhaustion: it is reserved and then forgotten.
     */
    method FillPortsOnce(ghost s: State, j: nat) returns (ok: bool)
      requires Shows(s) && s.pending.None? && j < size && |ports| < PORTS_BUF_SIZE
      modifies this
      ensures var r := Range(base, size);
              Shows(Next(r, Next(r, s, Reserve(j)), Send))
      ensures ok <==> !Full(old(used), size) && FirstFree(old(used), size, j, 0) + base != -1
      ensures ports == if ok then old(ports) + [FirstFree(old(used), size, j, 0) + base] else old(ports)
    {
      ScanComplete(used, size, j);
      var port := NextFreePort(j);
      if port == -1 {
        return false;
      }
      ports := ports + [port];
      ok := true;
    }

    /** expired is whether select picks the timer, which it must when no port is there. */
    method AllocateNext(ghost s: State, expired: bool) returns (port: Option<int>)
      requires Shows(s) && (expired || ports != [])
      modifies this`ports
      ensures Shows(Next(Range(base, size), s, if expired then Timeout else Take))
      ensures if expired then port == None && ports == old(ports)
              else port == Some(old(ports)[0]) && ports == old(ports)[1..]
      ensures port.Some? ==>
                && Next(Range(base, size), s, Take).held == s.held + multiset{port.value}
                && Next(Range(base, size), s, Take).taken == s.taken + [port.value]
    {
      if expired {
        return None;
      }
      port := Some(ports[0]);
      ports := ports[1..];
    }

    /** j is the random number drawn below size. */
    method NextFreePort(j: nat) returns (port: int)
      requires j < size
      modifies this`used
      ensures var r := FirstFree(old(used), size, j, 0);
              if r == -1 then port == -1 && used == old(used) && Full(used, size)
              else port == r + base && 0 <= r < size && r !in old(used) && used == old(used) + {r}
    {
      ScanComplete(used, size, j);
      if j !in used {
        used := used + {j};
        return j + base;
      }
      var i := j + 1;
      while i < size
        invariant j < i <= size && used == old(used)
        invariant FirstFree(used, size, j, 0) == FirstFree(used, size, j, i - j)
      {
        if i !in used {
          used := used + {i};
          return i + base;
        }
        i := i + 1;
      }
      i := 0;
      while i < j
        invariant 0 <= i <= j && used == old(used)
        invariant FirstFree(used, size, j, 0) == FirstFree(used, size, j, size - j + i)
      {
        if i !in used {
          used := used + {i};
          return i + base;
        }
        i := i + 1;
      }
      return -1;
    }

    method Release(ghost s: State, port: int)
      requires Shows(s)
      modifies this`used
      ensures Shows(Next(Range(base, size), s, Step.Release(port)))
    {
      var index := port - base;
      if index < 0 || index >= size {
        return;
      }
      used := used - {index};
    }
  }

  function Cleared(used: set<int>, base: int, size: nat, port: int): set<int> {
    if port - base < 0 || port - base >= size then used else used - {port - base}
  }

  // ------------------------------------------------ filler, channel, clients

  /** The range of the allocator. */
  datatype Range = Range(base: int, size: nat)

  /** -1, the value that stands for exhaustion, is not a port of the range. */
  predicate Sound(r: Range) {
    -1 < r.base || r.base + r.size <= -1
  }

  /**
    pending is the port the filler has reserved and not yet sent; buffer is the channel; held are
    the ports clients have received and not given back, with multiplicity; sent and taken list all
    ports the filler has sent and AllocateNext has returned.
   */
  datatype State = State(
    used: set<int>, buffer: seq<int>, pending: Option<int>, held: multiset<int>, sent: seq<int>, taken: seq<int>)

  datatype Step = Reserve(j: nat) | Send | Take | Timeout | Release(port: int)

  const START := State({}, [], None, multiset{}, [], [])

  predicate Enabled(r: Range, s: State, step: Step) {
    match step
    case Reserve(j) => s.pending.None? && j < r.size
    case Send => s.pending.Some? && |s.buffer| < PORTS_BUF_SIZE
    case Take => s.buffer != []
    case Timeout => true
    case Release(port) => port in s.held
  }

  function Next(r: Range, s: State, step: Step): State {
    match step
    case Reserve(j) =>
      if s.pending.None? && j < r.size then
        var i := FirstFree(s.used, r.size, j, 0);
        if i == -1 then s
        else s.(used := s.used + {i}, pending := if i + r.base == -1 then None else Some(i + r.base))
      else s
    case Send =>
      if s.pending.None? then s
      else s.(buffer := s.buffer + [s.pending.value], pending := None, sent := s.sent + [s.pending.value])
    case Take =>
      if s.buffer == [] then s
      else s.(buffer := s.buffer[1..], held := s.held + multiset{s.buffer[0]}, taken := s.taken + [s.buffer[0]])
    case Timeout => s
    case Release(port) => s.(used := Cleared(s.used, r.base, r.size, port), held := s.held - multiset{port})
  }

  /** A run of one filler and clients that give back only ports they hold. */
  ghost predicate Allowed(r: Range, steps: seq<Step>) {
    steps == [] ||
    (Allowed(r, steps[..|steps| - 1]) && Enabled(r, Run(r, steps[..|steps| - 1]), steps[|steps| - 1]))
  }

  function Run(r: Range, steps: seq<Step>): State {
    if steps == [] then START else Next(r, Run(r, steps[..|steps| - 1]), steps[|steps| - 1])
  }

  function Ports(r: Range, used: set<int>): set<int> {
    set i | i in used :: i + r.base
  }

  function Pending(s: State): multiset<int> {
    if s.pending.Some? then multiset{s.pending.value} else multiset{}
  }

  /** The set bits are the disjoint union of the buffered, in-flight and held ports. */
  ghost predicate Conserved(r: Range, s: State) {
    && (forall i :: i in s.used ==> 0 <= i < r.size)
    && |s.buffer| <= PORTS_BUF_SIZE
    && multiset(s.buffer) + Pending(s) + s.held == multiset(Ports(r, s.used))
  }

  lemma AddPort(r: Range, used: set<int>, i: int)
    requires i !in used
    ensures multiset(Ports(r, used + {i})) == multiset(Ports(r, used)) + multiset{i + r.base}
  {
    var p := i + r.base;
    assert Ports(r, used + {i}) == Ports(r, used) + {p};
    assert p !in Ports(r, used);
  }

  lemma RemovePort(r: Range, used: set<int>, i: int)
    requires i in used
    ensures multiset(Ports(r, used - {i})) == multiset(Ports(r, used)) - multiset{i + r.base}
  {
    AddPort(r, used - {i}, i);
    assert used - {i} + {i} == used;
  }

  lemma PortOf(r: Range, used: set<int>, port: int)
    ensures port in Ports(r, used) <==> port - r.base in used
    ensures multiset(Ports(r, used))[port] == if port - r.base in used then 1 else 0
  {
    assert port == (port - r.base) + r.base;
  }

  lemma ReserveConserves(r: Range, s: State, j: nat)
    requires Sound(r) && Conserved(r, s) && Enabled(r, s, Reserve(j))
    ensures Conserved(r, Next(r, s, Reserve(j)))
  {
    hide Ports, FirstFree;
    ScanComplete(s.used, r.size, j);
    var i := FirstFree(s.used, r.size, j, 0);
    if i != -1 {
      AddPort(r, s.used, i);
      var b, p := multiset(s.buffer), multiset{i + r.base};
      assert b + p + s.held == b + multiset{} + s.held + p;
    }
  }

  lemma SendConserves(r: Range, s: State)
    requires Conserved(r, s) && Enabled(r, s, Send)
    ensures Conserved(r, Next(r, s, Send))
  {
    hide Ports, FirstFree;
    var p := multiset{s.pending.value};
    assert multiset(s.buffer + [s.pending.value]) == multiset(s.buffer) + p;
    assert multiset(s.buffer) + p + multiset{} + s.held == multiset(s.buffer) + p + s.held;
  }

  lemma TakeConserves(r: Range, s: State)
    requires Conserved(r, s) && Enabled(r, s, Take)
    ensures Conserved(r, Next(r, s, Take))
  {
    hide Ports, FirstFree;
    var p, rest, q := multiset{s.buffer[0]}, multiset(s.buffer[1..]), Pending(s);
    assert s.buffer == [s.buffer[0]] + s.buffer[1..];
    assert multiset(s.buffer) == p + rest;
    assert rest + q + (s.held + p) == p + rest + q + s.held;
  }

  lemma ReleaseConserves(r: Range, s: State, port: int)
    requires Conserved(r, s) && port in s.held
    ensures Conserved(r, Next(r, s, Release(port)))
  {
    hide Ports, FirstFree;
    PortOf(r, s.used, port);
    assert port in multiset(s.buffer) + Pending(s) + s.held;
    RemovePort(r, s.used, port - r.base);
    var p, rest := multiset{port}, multiset(s.buffer) + Pending(s);
    assert rest + (s.held - p) == rest + s.held - p;
  }

  lemma StepConserves(r: Range, s: State, step: Step)
    requires Sound(r) && Conserved(r, s) && Enabled(r, s, step)
    ensures Conserved(r, Next(r, s, step))
  {
    hide Next, Conserved;
    match step {
      case Reserve(j) => ReserveConserves(r, s, j);
      case Send => SendConserves(r, s);
      case Take => TakeConserves(r, s);
      case Timeout => assert Next(r, s, Timeout) == s by { TimeoutStays(r, s); }
      case Release(port) => ReleaseConserves(r, s, port);
    }
  }

  lemma TimeoutStays(r: Range, s: State)
    ensures Next(r, s, Timeout) == s
  {
  }

  lemma {:induction false} RunConserves(r: Range, steps: seq<Step>)
    requires Sound(r) && Allowed(r, steps)
    ensures Conserved(r, Run(r, steps))
  {
    if steps == [] {
      assert Ports(r, {}) == {};
    } else {
      RunConserves(r, steps[..|steps| - 1]);
      StepConserves(r, Run(r, steps[..|steps| - 1]), steps[|steps| - 1]);
    }
  }

  /** What clients have received and not given back is part of what they have received. */
  ghost predicate InOrder(s: State) {
    s.sent == s.taken + s.buffer && s.held <= multiset(s.taken)
  }

  lemma OrderStep(r: Range, s: State, step: Step)
    requires InOrder(s)
    ensures InOrder(Next(r, s, step))
  {
    hide FirstFree, Cleared;
    match step {
      case Send =>
        if s.pending.Some? {
          assert s.sent + [s.pending.value] == s.taken + (s.buffer + [s.pending.value]);
        }
      case Take =>
        if s.buffer != [] {
          assert s.buffer == [s.buffer[0]] + s.buffer[1..];
          assert s.taken + s.buffer == (s.taken + [s.buffer[0]]) + s.buffer[1..];
        }
      case _ =>
    }
  }

  /**
    In every run, whatever clients give back, AllocateNext returns the ports in the order in which
    the filler sent them, each once: those returned, followed by the channel, are those sent.
   */
  lemma {:induction false} PortsInOrder(r: Range, steps: seq<Step>)
    ensures var s := Run(r, steps);
            s.sent == s.taken + s.buffer && s.held <= multiset(s.taken)
  {
    hide Next;
    if steps != [] {
      PortsInOrder(r, steps[..|steps| - 1]);
      OrderStep(r, Run(r, steps[..|steps| - 1]), steps[|steps| - 1]);
    }
  }

  /** The channel holds up to 16 ports: the filler waits exactly when that many are there. */
  lemma SendIff(r: Range, steps: seq<Step>)
    requires Sound(r) && Allowed(r, steps)
    ensures var s := Run(r, steps);
            && |s.buffer| <= 16
            && (s.pending.Some? ==> (Enabled(r, s, Send) <==> |s.sent| - |s.taken| < 16))
            && (Enabled(r, s, Take) <==> |s.taken| < |s.sent|)
  {
    hide Run;
    RunConserves(r, steps);
    PortsInOrder(r, steps);
  }

  /** Every run conserves the ports exactly when -1 is not one of them. */
  lemma ConservationIff(r: Range)
    ensures (forall steps :: Allowed(r, steps) ==> Conserved(r, Run(r, steps))) <==> Sound(r)
  {
    if Sound(r) {
      forall steps | Allowed(r, steps) ensures Conserved(r, Run(r, steps)) { RunConserves(r, steps); }
    } else {
      LostPort(r);
    }
  }

  /** Drawing the port -1 first sets its bit and leaves it with nobody. */
  lemma LostPort(r: Range)
    requires !Sound(r)
    ensures var steps := [Reserve(-1 - r.base)];
            Allowed(r, steps) && Run(r, steps) == START.(used := {-1 - r.base}) && !Conserved(r, Run(r, steps))
  {
    var j := -1 - r.base;
    assert [Reserve(j)][..0] == [];
    assert ScanIndex(r.size, j, 0) == j;
    assert -1 in Ports(r, {j}) by { assert j + r.base == -1; }
    assert multiset(Ports(r, {j}))[-1] == 1;
  }

  /**
    Port conservation over all runs: no port is held twice, the port AllocateNext is about to
    return is held by nobody, and at most 17 ports are reserved without being held.
   */
  lemma PortConservation(r: Range, steps: seq<Step>)
    requires Sound(r) && Allowed(r, steps)
    ensures var s := Run(r, steps);
            && Conserved(r, s)
            && (forall port :: s.held[port] <= 1)
            && (s.buffer != [] ==> s.buffer[0] !in s.held)
            && |s.held| <= |Ports(r, s.used)| <= |s.held| + 17
  {
    hide Run, Ports;
    RunConserves(r, steps);
    var s := Run(r, steps);
    Distinct(r, s);
    assert |multiset(Ports(r, s.used))| == |Ports(r, s.used)|;
    assert |multiset(s.buffer) + Pending(s) + s.held| == |s.buffer| + |Pending(s)| + |s.held|;
  }

  lemma Distinct(r: Range, s: State)
    requires Conserved(r, s)
    ensures forall port :: s.held[port] <= 1
    ensures s.buffer != [] ==> s.buffer[0] !in s.held
  {
    hide Ports;
    var b, q := multiset(s.buffer), Pending(s);
    forall port ensures b[port] + q[port] + s.held[port] <= 1 {
      PortOf(r, s.used, port);
      assert (b + q + s.held)[port] == b[port] + q[port] + s.held[port];
    }
    if s.buffer != [] {
      assert s.buffer[0] in b;
      assert b[s.buffer[0]] >= 1;
    }
  }

  /**
    Real exhaustion: with nothing buffered or in flight, a scan fails exactly when clients hold
    every port of the range.
   */
  lemma ExhaustionIff(r: Range, steps: seq<Step>, j: nat)
    requires Sound(r) && Allowed(r, steps) && j < r.size
    requires Run(r, steps).buffer == [] && Run(r, steps).pending.None?
    ensures var s := Run(r, steps);
            FirstFree(s.used, r.size, j, 0) == -1 <==>
            (forall port :: r.base <= port < r.base + r.size ==> port in s.held)
  {
    hide Run, Ports, FirstFree;
    RunConserves(r, steps);
    var s := Run(r, steps);
    ScanComplete(s.used, r.size, j);
    assert s.held == multiset(Ports(r, s.used));
    forall port ensures port in s.held <==> port - r.base in s.used { PortOf(r, s.used, port); }
    if forall port :: r.base <= port < r.base + r.size ==> port in s.held {
      forall i | 0 <= i < r.size ensures i in s.used { assert i + r.base in s.held; }
    }
  }

  /**
    Release checks nothing but the range. A release keeps the books exactly when the port is out of
    range, is held, or is not reserved at all; giving back a port that is still buffered or in
    flight lets the scan hand it out a second time.
   */
  lemma ReleaseKeepsIff(r: Range, s: State, port: int)
    requires Conserved(r, s)
    ensures Conserved(r, Next(r, s, Release(port))) <==>
            (port < r.base || port >= r.base + r.size || port in s.held || port - r.base !in s.used)
  {
    PortOf(r, s.used, port);
    var s' := Next(r, s, Release(port));
    PortOf(r, s'.used, port);
    if port in s.held {
      RemovePort(r, s.used, port - r.base);
    } else {
      assert s'.held == s.held;
      if port < r.base || port >= r.base + r.size || port - r.base !in s.used {
        assert s'.used == s.used;
      } else {
        assert (multiset(s'.buffer) + Pending(s') + s'.held)[port] == 1;
        assert multiset(Ports(r, s'.used))[port] == 0;
      }
    }
  }

  lemma RunSnoc(r: Range, steps: seq<Step>, step: Step)
    ensures Run(r, steps + [step]) == Next(r, Run(r, steps), step)
  {
    assert (steps + [step])[..|steps|] == steps;
  }

  lemma RunNone(r: Range)
    ensures Run(r, []) == START && Allowed(r, [])
  {
  }

  lemma AllowedSnoc(r: Range, steps: seq<Step>, step: Step)
    ensures Allowed(r, steps + [step]) <==> Allowed(r, steps) && Enabled(r, Run(r, steps), step)
  {
    assert (steps + [step])[..|steps|] == steps;
  }

  lemma OneBuffered(base: int)
    requires base > 0
    ensures var r := Range(base, 1);
            Allowed(r, [Reserve(0), Send])
            && Run(r, [Reserve(0), Send]) == State({0}, [base], None, multiset{}, [base], [])
  {
    hide Run, Allowed;
    var r := Range(base, 1);
    RunNone(r);
    RunSnoc(r, [], Reserve(0));
    AllowedSnoc(r, [], Reserve(0));
    assert [] + [Reserve(0)] == [Reserve(0)] && ScanIndex(1, 0, 0) == 0;
    assert Run(r, [Reserve(0)]) == State({0}, [], Some(base), multiset{}, [], []);
    RunSnoc(r, [Reserve(0)], Send);
    AllowedSnoc(r, [Reserve(0)], Send);
    assert [Reserve(0)] + [Send] == [Reserve(0), Send];
  }

  /**
    A run in which one client gives back a port that is still in the channel. Nobody holds it then,
    and after it two clients do.
   */
  lemma StrayRelease(base: int)
    requires base > 0
    ensures var r := Range(base, 1);
            Allowed(r, [Reserve(0), Send]) && base !in Run(r, [Reserve(0), Send]).held
            && Run(r, [Reserve(0), Send, Step.Release(base), Reserve(0), Send, Take, Take]).held[base] == 2
  {
    hide Run, Allowed;
    var r := Range(base, 1);
    OneBuffered(base);
    var s2 := [Reserve(0), Send];
    var s3 := s2 + [Step.Release(base)];
    var s4 := s3 + [Reserve(0)];
    var s5 := s4 + [Send];
    var s6 := s5 + [Take];
    RunSnoc(r, s2, Step.Release(base));
    assert Run(r, s3) == State({}, [base], None, multiset{}, [base], []);
    RunSnoc(r, s3, Reserve(0));
    assert ScanIndex(1, 0, 0) == 0;
    assert Run(r, s4) == State({0}, [base], Some(base), multiset{}, [base], []);
    RunSnoc(r, s4, Send);
    RunSnoc(r, s5, Take);
    RunSnoc(r, s6, Take);
    assert s6 + [Take] == [Reserve(0), Send, Step.Release(base), Reserve(0), Send, Take, Take];
  }
}
