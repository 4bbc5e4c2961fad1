/**
  The pipe listener of netconn/pkg/common.go: any number of calls of Close, DialContext and Accept,
  with every load, lock, check, channel close, store, unlock, send and receive a step of its own.
 */
module PipeListener {
  import opened Options

  const CAPACITY: nat := 10

  /** Where a call of Close stands. The deferred store runs before the deferred unlock. */
  datatype ClosePc =
    | BeforeLoad
    | BeforeLock
    | BeforeCheck
    | BeforeClose
    | BeforeStore
    | BeforeUnlock(first: bool)
    | ReturnedNil
    | ReturnedErr

  datatype DialPc = DialStart | Selecting | Connected | Cancelled | Refused

  /**
    closes counts the executions of close(l.close); sent and accepted list the server ends, named by
    their dial call, of the successful dials and of the successful accepts.
   */
  datatype State = State(
    done: bool, lock: Option<nat>, closes: nat, closers: map<nat, ClosePc>,
    dials: map<nat, DialPc>, queue: seq<nat>, sent: seq<nat>, accepted: seq<nat>)

  const START := State(false, None, 0, map[], map[], [], [], [])

  datatype Step =
    | CloseCall(t: nat) | CloseLoad(t: nat) | CloseLock(t: nat) | CloseCheck(t: nat) | CloseChannel(t: nat)
    | CloseStore(t: nat) | CloseUnlock(t: nat)
    | DialCall(d: nat) | DialLoad(d: nat) | DialSend(d: nat) | DialCancel(d: nat) | DialSeesClose(d: nat)
    | AcceptTake | AcceptSeesClose

  predicate At(s: State, t: nat, pc: ClosePc) {
    t in s.closers && s.closers[t] == pc
  }

  predicate DialAt(s: State, d: nat, pc: DialPc) {
    d in s.dials && s.dials[d] == pc
  }

  predicate Enabled(s: State, step: Step) {
    match step
    case CloseCall(t) => t !in s.closers
    case CloseLoad(t) => At(s, t, BeforeLoad)
    case CloseLock(t) => At(s, t, BeforeLock) && s.lock.None?
    case CloseCheck(t) => At(s, t, BeforeCheck)
    case CloseChannel(t) => At(s, t, BeforeClose)
    case CloseStore(t) => At(s, t, BeforeStore)
    case CloseUnlock(t) => At(s, t, BeforeUnlock(true)) || At(s, t, BeforeUnlock(false))
    case DialCall(d) => d !in s.dials
    case DialLoad(d) => DialAt(s, d, DialStart)
    case DialSend(d) => DialAt(s, d, Selecting) && |s.queue| < CAPACITY
    case DialCancel(d) => DialAt(s, d, Selecting)
    case DialSeesClose(d) => DialAt(s, d, Selecting) && s.closes > 0
    case AcceptTake => s.queue != []
    case AcceptSeesClose => s.closes > 0
  }

  function Next(s: State, step: Step): State
    requires Enabled(s, step)
  {
    match step
    case CloseCall(t) => s.(closers := s.closers[t := BeforeLoad])
    case CloseLoad(t) => s.(closers := s.closers[t := if s.done then ReturnedErr else BeforeLock])
    case CloseLock(t) => s.(closers := s.closers[t := BeforeCheck], lock := Some(t))
    case CloseCheck(t) => s.(closers := s.closers[t := if s.done then BeforeUnlock(false) else BeforeClose])
    case CloseChannel(t) => s.(closers := s.closers[t := BeforeStore], closes := s.closes + 1)
    case CloseStore(t) => s.(closers := s.closers[t := BeforeUnlock(true)], done := true)
    case CloseUnlock(t) =>
      s.(closers := s.closers[t := if s.closers[t].first then ReturnedNil else ReturnedErr], lock := None)
    case DialCall(d) => s.(dials := s.dials[d := DialStart])
    case DialLoad(d) => s.(dials := s.dials[d := if s.done then Refused else Selecting])
    case DialSend(d) => s.(dials := s.dials[d := Connected], queue := s.queue + [d], sent := s.sent + [d])
    case DialCancel(d) => s.(dials := s.dials[d := Cancelled])
    case DialSeesClose(d) => s.(dials := s.dials[d := Refused])
    case AcceptTake => s.(queue := s.queue[1..], accepted := s.accepted + [s.queue[0]])
    case AcceptSeesClose => s
  }

  /** A step that is not possible when its turn comes is skipped. */
  function After(s: State, step: Step): State {
    if Enabled(s, step) then Next(s, step) else s
  }

  /** The state after a schedule. */
  function Run(s: State, steps: seq<Step>): State {
    if steps == [] then s else After(Run(s, steps[..|steps| - 1]), steps[|steps| - 1])
  }

  predicate InLock(pc: ClosePc) {
    pc == BeforeCheck || pc == BeforeClose || pc == BeforeStore || pc.BeforeUnlock?
  }

  /** The call that found done unset under the lock and has closed the channel. */
  predicate Winner(pc: ClosePc) {
    pc == BeforeStore || pc == BeforeUnlock(true) || pc == ReturnedNil
  }

  predicate Returned(pc: ClosePc) {
    pc == ReturnedNil || pc == ReturnedErr
  }

  ghost predicate LockInv(s: State) {
    && (forall t :: t in s.closers ==> (InLock(s.closers[t]) <==> s.lock == Some(t)))
    && (s.lock.Some? ==> s.lock.value in s.closers)
  }

  ghost predicate CloseInv(s: State) {
    && (forall t :: t in s.closers && (s.closers[t].BeforeUnlock? || Returned(s.closers[t])) ==> s.done)
    && (forall t :: t in s.closers && (s.closers[t] == BeforeClose || s.closers[t] == BeforeStore) ==> !s.done)
    && (forall t, u :: t in s.closers && u in s.closers && Winner(s.closers[t]) && Winner(s.closers[u]) ==> t == u)
    && s.closes == (if exists t :: t in s.closers && Winner(s.closers[t]) then 1 else 0)
    && (s.done ==> s.closes == 1)
    && (s.closes == 1 && !s.done ==> exists t :: t in s.closers && s.closers[t] == BeforeStore)
  }

  ghost predicate QueueInv(s: State) {
    && s.sent == s.accepted + s.queue
    && |s.queue| <= CAPACITY
    && (forall d :: d in s.sent ==> DialAt(s, d, Connected))
    && (forall i, j :: 0 <= i < j < |s.sent| ==> s.sent[i] != s.sent[j])
    && (forall d :: DialAt(s, d, Connected) ==> d in s.sent)
  }

  ghost predicate Inv(s: State) {
    LockInv(s) && CloseInv(s) && QueueInv(s)
  }

  lemma LockStep(s: State, step: Step)
    requires LockInv(s) && Enabled(s, step)
    ensures LockInv(Next(s, step))
  {
  }

  lemma OnlyDials(s: State, s': State)
    requires s'.done == s.done && s'.lock == s.lock && s'.closes == s.closes && s'.closers == s.closers
    requires CloseInv(s)
    ensures CloseInv(s')
  {
  }

  lemma OnlyCloses(s: State, s': State)
    requires s'.dials == s.dials && s'.queue == s.queue && s'.sent == s.sent && s'.accepted == s.accepted
    requires QueueInv(s)
    ensures QueueInv(s')
  {
  }

  /** A step of a call that neither was nor becomes the winner. */
  lemma NoNewWinner(s: State, t: nat, pc: ClosePc, lock: Option<nat>)
    requires CloseInv(s) && !Winner(pc) && (t in s.closers ==> !Winner(s.closers[t]))
    requires pc == BeforeClose ==> !s.done
    requires pc.BeforeUnlock? || Returned(pc) ==> s.done
    ensures CloseInv(s.(closers := s.closers[t := pc], lock := lock))
  {
    var s' := s.(closers := s.closers[t := pc], lock := lock);
    assert forall u :: u in s'.closers && Winner(s'.closers[u]) ==> u in s.closers && s'.closers[u] == s.closers[u];
    assert forall u :: u in s.closers && Winner(s.closers[u]) ==> u in s'.closers && s'.closers[u] == s.closers[u];
  }

  lemma UnlockDone(s: State, t: nat)
    requires CloseInv(s) && t in s.closers && s.closers[t].BeforeUnlock?
    ensures s.done
  {
  }

  lemma CloseStep(s: State, step: Step)
    requires LockInv(s) && CloseInv(s) && Enabled(s, step)
    ensures CloseInv(Next(s, step))
  {
    hide CloseInv;
    match step {
      case CloseCall(t) => NoNewWinner(s, t, BeforeLoad, s.lock);
      case CloseLoad(t) => NoNewWinner(s, t, if s.done then ReturnedErr else BeforeLock, s.lock);
      case CloseLock(t) => NoNewWinner(s, t, BeforeCheck, Some(t));
      case CloseCheck(t) => NoNewWinner(s, t, if s.done then BeforeUnlock(false) else BeforeClose, s.lock);
      case CloseChannel(t) => ChannelStep(s, t);
      case CloseStore(t) => WinnerStep(s, t, BeforeUnlock(true), s.lock);
      case CloseUnlock(t) =>
        UnlockDone(s, t);
        if s.closers[t].first { WinnerStep(s, t, ReturnedNil, None); } else { NoNewWinner(s, t, ReturnedErr, None); }
      case DialCall(_) => OnlyDials(s, Next(s, step));
      case DialLoad(_) => OnlyDials(s, Next(s, step));
      case DialSend(_) => OnlyDials(s, Next(s, step));
      case DialCancel(_) => OnlyDials(s, Next(s, step));
      case DialSeesClose(_) => OnlyDials(s, Next(s, step));
      case AcceptTake => OnlyDials(s, Next(s, step));
      case AcceptSeesClose =>
    }
  }

  /** Under the lock with done unset nobody can have closed the channel before. */
  lemma ChannelStep(s: State, t: nat)
    requires LockInv(s) && CloseInv(s) && At(s, t, BeforeClose)
    ensures CloseInv(Next(s, CloseChannel(t)))
  {
    forall u | u in s.closers ensures !Winner(s.closers[u]) {
      if s.closers[u] == BeforeStore {
        assert InLock(s.closers[u]) && InLock(s.closers[t]);
      }
    }
    var s' := Next(s, CloseChannel(t));
    assert s'.closers[t] == BeforeStore;
    assert forall u :: u in s'.closers && u != t ==> s'.closers[u] == s.closers[u];
  }

  /** The winner goes on to its store or its return. */
  lemma WinnerStep(s: State, t: nat, pc: ClosePc, lock: Option<nat>)
    requires LockInv(s) && CloseInv(s) && t in s.closers && Winner(s.closers[t]) && InLock(s.closers[t])
    requires pc == BeforeUnlock(true) || pc == ReturnedNil
    ensures CloseInv(s.(closers := s.closers[t := pc], lock := lock, done := true))
  {
    var s' := s.(closers := s.closers[t := pc], lock := lock, done := true);
    assert s'.closers[t] == pc;
    forall u | u in s'.closers ensures s'.closers[u] != BeforeClose && s'.closers[u] != BeforeStore {
      if u != t {
        assert s'.closers[u] == s.closers[u];
        assert InLock(s.closers[t]);
      }
    }
    assert forall u :: u in s'.closers && u != t ==> s'.closers[u] == s.closers[u];
  }

  lemma QueueStep(s: State, step: Step)
    requires QueueInv(s) && Enabled(s, step)
    ensures QueueInv(Next(s, step))
  {
    var s' := Next(s, step);
    match step {
      case DialSend(d) =>
        assert d !in s.sent;
        assert s'.sent == s'.accepted + s'.queue;
      case AcceptTake =>
        assert s.queue == [s.queue[0]] + s.queue[1..];
        assert s'.accepted + s'.queue == s.accepted + ([s.queue[0]] + s.queue[1..]);
      case DialCall(d) => assert d !in s.sent;
      case DialLoad(d) => assert d !in s.sent;
      case DialCancel(d) => assert d !in s.sent;
      case DialSeesClose(d) => assert d !in s.sent;
      case _ => OnlyCloses(s, s');
    }
  }

  lemma {:induction false} RunKeepsInv(s: State, steps: seq<Step>)
    requires Inv(s)
    ensures Inv(Run(s, steps))
  {
    hide LockInv, CloseInv, QueueInv, Next, Enabled;
    if steps != [] {
      var step := steps[|steps| - 1];
      RunKeepsInv(s, steps[..|steps| - 1]);
      var mid := Run(s, steps[..|steps| - 1]);
      if Enabled(mid, step) {
        LockStep(mid, step);
        CloseStep(mid, step);
        QueueStep(mid, step);
      }
    }
  }

  lemma StartInv()
    ensures Inv(START)
  {
  }

  /**
    Close exactly once: the channel is closed at most once, so that close never panics; at most one
    call returns nil; and once any call has returned, the channel is closed and exactly one call
    closed it.
   */
  lemma CloseOnce(steps: seq<Step>, s: State)
    requires s == Run(START, steps)
    ensures s.closes <= 1
    ensures forall t, u :: At(s, t, ReturnedNil) && At(s, u, ReturnedNil) ==> t == u
    ensures (exists t :: t in s.closers && Returned(s.closers[t])) ==>
              s.done && s.closes == 1 && exists t :: t in s.closers && Winner(s.closers[t])
                                                  && forall u :: u in s.closers && Winner(s.closers[u]) ==> u == t
  {
    StartInv();
    RunKeepsInv(START, steps);
  }

  predicate OfClose(step: Step) {
    || step.CloseLoad? || step.CloseLock? || step.CloseCheck?
    || step.CloseChannel? || step.CloseStore? || step.CloseUnlock?
  }

  /**
    No call of Close is stuck: a call that has not returned can take its next step, or waits for a
    lock whose holder can take its next step.
   */
  lemma CloseProgress(steps: seq<Step>, s: State, t: nat)
    requires s == Run(START, steps) && t in s.closers && !Returned(s.closers[t])
    ensures exists step: Step :: Enabled(s, step) && OfClose(step)
                                 && (step.t == t || (s.closers[t] == BeforeLock && s.lock == Some(step.t)))
  {
    StartInv();
    RunKeepsInv(START, steps);
    var u := if s.closers[t] == BeforeLock && s.lock.Some? then s.lock.value else t;
    assert u in s.closers && (u != t ==> InLock(s.closers[u]));
    match s.closers[u] {
      case BeforeLoad => assert Enabled(s, CloseLoad(u));
      case BeforeLock => assert Enabled(s, CloseLock(u));
      case BeforeCheck => assert Enabled(s, CloseCheck(u));
      case BeforeClose => assert Enabled(s, CloseChannel(u));
      case BeforeStore => assert Enabled(s, CloseStore(u));
      case BeforeUnlock(_) => assert Enabled(s, CloseUnlock(u));
      case _ =>
    }
  }

  /**
    Dial and Accept: accepts return the server ends of successful dials in the order of their sends,
    each at most once; what is not accepted yet is queued, at most ten, before and after Close.
   */
  lemma DialAcceptConservation(steps: seq<Step>, s: State)
    requires s == Run(START, steps)
    ensures s.accepted <= s.sent && s.sent == s.accepted + s.queue && |s.queue| <= 10
    ensures forall d :: DialAt(s, d, Connected) <==> d in s.sent
    ensures forall i, j :: 0 <= i < j < |s.accepted| ==> s.accepted[i] != s.accepted[j]
  {
    StartInv();
    RunKeepsInv(START, steps);
    assert forall i :: 0 <= i < |s.accepted| ==> s.accepted[i] == s.sent[i];
  }

  /**
    Once any call of Close has returned, no Accept and no dial in its select blocks. An Accept can
    then still return a connection instead of an error, exactly while one is queued.
   */
  lemma CloseUnblocks(steps: seq<Step>, s: State)
    requires s == Run(START, steps) && exists t :: t in s.closers && Returned(s.closers[t])
    ensures Enabled(s, AcceptSeesClose)
    ensures forall d :: DialAt(s, d, Selecting) ==> Enabled(s, DialSeesClose(d))
    ensures Enabled(s, AcceptTake) <==> |s.accepted| < |s.sent|
  {
    hide Run;
    CloseOnce(steps, s);
    DialAcceptConservation(steps, s);
  }

  /** Some call of Close has closed the channel. */
  ghost predicate Closed(s: State) {
    exists t :: t in s.closers && Winner(s.closers[t])
  }

  /**
    What the cases of the two selects wait for, in every reachable state: Accept takes while a
    connection is queued, a dial sends while fewer than ten are, and both see the close exactly when
    some call of Close has closed the channel.
   */
  lemma SelectsIff(steps: seq<Step>, s: State)
    requires s == Run(START, steps)
    ensures Enabled(s, AcceptTake) <==> |s.accepted| < |s.sent|
    ensures Enabled(s, AcceptSeesClose) <==> Closed(s)
    ensures forall d :: DialAt(s, d, Selecting) ==>
              && Enabled(s, DialCancel(d))
              && (Enabled(s, DialSend(d)) <==> |s.sent| - |s.accepted| < 10)
              && (Enabled(s, DialSeesClose(d)) <==> Closed(s))
  {
    hide Run, LockInv;
    StartInv();
    RunKeepsInv(START, steps);
    DialAcceptConservation(steps, s);
    assert s.closes > 0 <==> Closed(s);
  }

  lemma RefusedStep(s: State, step: Step)
    requires CloseInv(s) && Enabled(s, step) && forall d :: DialAt(s, d, Refused) ==> s.closes > 0
    ensures forall d :: DialAt(Next(s, step), d, Refused) ==> Next(s, step).closes > 0
  {
    forall d | DialAt(Next(s, step), d, Refused) ensures Next(s, step).closes > 0 {
      assert DialAt(s, d, Refused) || step == DialSeesClose(d) || (step == DialLoad(d) && s.done);
    }
  }

  /** No dial is refused before the channel has been closed. */
  lemma {:induction false} RefusedMeansClosed(steps: seq<Step>)
    ensures forall d :: DialAt(Run(START, steps), d, Refused) ==> Run(START, steps).closes > 0
  {
    if steps != [] {
      var mid, step := Run(START, steps[..|steps| - 1]), steps[|steps| - 1];
      hide Next, Enabled, LockInv, QueueInv;
      RefusedMeansClosed(steps[..|steps| - 1]);
      StartInv();
      RunKeepsInv(START, steps[..|steps| - 1]);
      if Enabled(mid, step) {
        hide CloseInv;
        RefusedStep(mid, step);
      }
    }
  }

  /** The dials that can still send. */
  function InSelect(s: State): set<nat> {
    set d | d in s.dials && s.dials[d] == Selecting
  }

  lemma SelectStep(s: State, step: Step)
    requires s.done && Enabled(s, step)
    ensures var s' := Next(s, step);
            s'.done && |s'.sent| + |InSelect(s')| <= |s.sent| + |InSelect(s)|
  {
    var s' := Next(s, step);
    match step {
      case DialSend(d) => Leaves(s, s', d);
      case DialCancel(d) => Leaves(s, s', d);
      case DialSeesClose(d) => Leaves(s, s', d);
      case DialCall(d) => assert InSelect(s') == InSelect(s);
      case DialLoad(d) => assert InSelect(s') == InSelect(s);
      case _ => assert s'.dials == s.dials && s'.sent == s.sent;
    }
  }

  lemma Leaves(s: State, s': State, d: nat)
    requires DialAt(s, d, Selecting) && d in s'.dials && s'.dials[d] != Selecting
    requires s'.dials == s.dials[d := s'.dials[d]]
    ensures |InSelect(s')| == |InSelect(s)| - 1
  {
    assert InSelect(s') == InSelect(s) - {d};
    assert d in InSelect(s);
  }

  /** From s to s' no dial has sent or reached its select that was not in its select at s already. */
  ghost predicate OnlyEarlier(s: State, s': State) {
    && (forall d :: d in s'.sent ==> d in s.sent || DialAt(s, d, Selecting))
    && (forall d :: DialAt(s', d, Selecting) ==> DialAt(s, d, Selecting))
  }

  lemma EarlierStep(s: State, step: Step)
    requires s.done && Enabled(s, step)
    ensures OnlyEarlier(s, Next(s, step))
  {
  }

  lemma EarlierTransitive(s: State, mid: State, s': State)
    requires OnlyEarlier(s, mid) && OnlyEarlier(mid, s')
    ensures OnlyEarlier(s, s')
  {
  }

  /**
    After Close: once any call of Close has returned, a dial that has not yet reached its select
    neither gets there nor succeeds, whatever happens later. So at most as many dials succeed from
    then on as were waiting in the select.
   */
  lemma {:induction false} DialsAfterClose(before: seq<Step>, later: seq<Step>)
    requires exists t :: t in Run(START, before).closers && Returned(Run(START, before).closers[t])
    ensures var s := Run(START, before);
            var s' := Run(s, later);
            && s'.done && OnlyEarlier(s, s')
            && |s'.sent| + |InSelect(s')| <= |s.sent| + |InSelect(s)|
  {
    hide Next, Enabled, InSelect;
    var s := Run(START, before);
    if later == [] {
      CloseOnce(before, s);
    } else {
      DialsAfterClose(before, later[..|later| - 1]);
      var mid := Run(s, later[..|later| - 1]);
      if Enabled(mid, later[|later| - 1]) {
        SelectStep(mid, later[|later| - 1]);
        EarlierStep(mid, later[|later| - 1]);
        EarlierTransitive(s, mid, Run(s, later));
      }
    }
  }

  // ------------------------------------------------- the listener object

  datatype DialResult = Conn | ContextError | ClosedError

  /**
    The listener itself. A call that nobody interrupts is one particular schedule of the steps above:
    each method names that schedule and is proved to do what it does.
   */
  class Listener {
    var ch: seq<nat>
    var closed: bool
    var done: bool
    var locked: bool

    ghost predicate Shows(s: State)
      reads this
    {
      ch == s.queue && closed == (s.closes > 0) && done == s.done && locked == s.lock.Some?
    }

    constructor ()
      ensures Shows(START)
    {
      ch, closed, done, locked := [], false, false, false;
    }

    method Close(ghost s: State, ghost t: nat) returns (err: bool)
      requires Inv(s) && Shows(s) && !locked && t !in s.closers
      modifies this
      ensures Shows(Run(s, CloseSchedule(t))) && !locked
      ensures At(Run(s, CloseSchedule(t)), t, if err then ReturnedErr else ReturnedNil)
      ensures done && closed && ch == old(ch) && (err <==> old(done))
    {
      CloseAlone(s, t);
      if !done {
        locked := true;
        var first := !done;
        if first {
          closed := true;
          done := true;
        }
        locked := false;
        return !first;
      }
      return true;
    }

    /** ready is the case that select picks among those that can go on. */
    method DialContext(ghost s: State, d: nat, ready: DialResult) returns (result: DialResult)
      requires Inv(s) && Shows(s) && d !in s.dials
      requires !done ==> (ready == Conn ==> |ch| < CAPACITY) && (ready == ClosedError ==> closed)
      modifies this`ch
      ensures result == if done then ClosedError else ready
      ensures Shows(Run(s, DialSchedule(d, ready)))
      ensures ch == if result == Conn then old(ch) + [d] else old(ch)
    {
      DialAlone(s, d, ready);
      if done {
        return ClosedError;
      }
      if ready == Conn {
        ch := ch + [d];
      }
      return ready;
    }

    /** Without a connection or a close, Accept waits; with both, select may pick either. */
    method Accept(ghost s: State, take: bool) returns (conn: Option<nat>)
      requires Inv(s) && Shows(s) && (if take then ch != [] else closed)
      modifies this`ch
      ensures Shows(Run(s, [if take then AcceptTake else AcceptSeesClose]))
      ensures if take then conn == Some(old(ch)[0]) && ch == old(ch)[1..] else conn == None && ch == old(ch)
    {
      AcceptAlone(s, take);
      if take {
        conn := Some(ch[0]);
        ch := ch[1..];
      } else {
        conn := None;
      }
    }
  }

  /** All seven steps of one call of Close, one after the other. */
  function CloseSchedule(t: nat): seq<Step> {
    [CloseCall(t), CloseLoad(t), CloseLock(t), CloseCheck(t), CloseChannel(t), CloseStore(t), CloseUnlock(t)]
  }

  function DialSchedule(d: nat, ready: DialResult): seq<Step> {
    [DialCall(d), DialLoad(d),
     match ready case Conn => DialSend(d) case ContextError => DialCancel(d) case ClosedError => DialSeesClose(d)]
  }

  lemma RunSnoc(s: State, steps: seq<Step>, step: Step)
    ensures Run(s, steps + [step]) == After(Run(s, steps), step)
  {
    assert (steps + [step])[..|steps|] == steps;
  }

  lemma RunTwo(s: State, x: Step, y: Step)
    ensures Run(s, [x, y]) == After(After(s, x), y)
  {
    RunSnoc(s, [], x);
    RunSnoc(s, [x], y);
    assert [] + [x] == [x] && [x] + [y] == [x, y];
  }

  lemma {:induction false} RunAppend(s: State, a: seq<Step>, b: seq<Step>)
    ensures Run(s, a + b) == Run(Run(s, a), b)
    decreases |b|
  {
    hide After;
    if b == [] {
      assert a + b == a;
    } else {
      RunAppend(s, a, b[..|b| - 1]);
      assert (a + b)[..|a + b| - 1] == a + b[..|b| - 1];
    }
  }

  /** A call that has returned takes no further step. */
  lemma {:induction false} ReturnedStays(s: State, t: nat, steps: seq<Step>)
    requires t in s.closers && Returned(s.closers[t])
    requires forall i :: 0 <= i < |steps| ==> steps[i] in CloseSchedule(t)
    ensures Run(s, steps) == s
  {
    if steps != [] {
      ReturnedStays(s, t, steps[..|steps| - 1]);
    }
  }

  /** Call and load: the call ends here when done is set, and goes for the lock otherwise. */
  lemma CloseBegins(s: State, t: nat)
    requires t !in s.closers
    ensures var s' := Run(s, [CloseCall(t), CloseLoad(t)]);
            && At(s', t, if s.done then ReturnedErr else BeforeLock)
            && s'.done == s.done && s'.closes == s.closes && s'.lock == s.lock && s'.queue == s.queue
  {
    RunTwo(s, CloseCall(t), CloseLoad(t));
  }

  lemma CloseEnters(s: State, t: nat)
    requires At(s, t, BeforeLock) && s.lock.None? && !s.done
    ensures var s' := Run(s, [CloseLock(t), CloseCheck(t)]);
            && At(s', t, BeforeClose)
            && !s'.done && s'.closes == s.closes && s'.lock == Some(t) && s'.queue == s.queue
  {
    RunTwo(s, CloseLock(t), CloseCheck(t));
  }

  lemma CloseCloses(s: State, t: nat)
    requires At(s, t, BeforeClose)
    ensures var s' := Run(s, [CloseChannel(t), CloseStore(t)]);
            && At(s', t, BeforeUnlock(true))
            && s'.done && s'.closes == s.closes + 1 && s'.lock == s.lock && s'.queue == s.queue
  {
    RunTwo(s, CloseChannel(t), CloseStore(t));
  }

  lemma CloseEnds(s: State, t: nat)
    requires At(s, t, BeforeUnlock(true))
    ensures var s' := Run(s, [CloseUnlock(t)]);
            && At(s', t, ReturnedNil)
            && s'.done == s.done && s'.closes == s.closes && s'.lock.None? && s'.queue == s.queue
  {
    RunSnoc(s, [], CloseUnlock(t));
    assert [] + [CloseUnlock(t)] == [CloseUnlock(t)];
  }

  lemma ScheduleParts(s: State, t: nat)
    ensures var s1 := Run(s, [CloseCall(t), CloseLoad(t)]);
            var s2 := Run(s1, [CloseLock(t), CloseCheck(t)]);
            var s3 := Run(s2, [CloseChannel(t), CloseStore(t)]);
            Run(s, CloseSchedule(t)) == Run(s3, [CloseUnlock(t)])
            && CloseSchedule(t)[2..] == [CloseLock(t), CloseCheck(t), CloseChannel(t), CloseStore(t), CloseUnlock(t)]
            && Run(s, CloseSchedule(t)) == Run(s1, CloseSchedule(t)[2..])
  {
    hide Run;
    var a, b, c, d := [CloseCall(t), CloseLoad(t)], [CloseLock(t), CloseCheck(t)],
        [CloseChannel(t), CloseStore(t)], [CloseUnlock(t)];
    assert CloseSchedule(t) == a + (b + (c + d)) && CloseSchedule(t)[2..] == b + (c + d);
    RunAppend(s, a, b + (c + d));
    RunAppend(Run(s, a), b, c + d);
    RunAppend(Run(Run(s, a), b), c, d);
  }

  lemma CloseAlone(s: State, t: nat)
    requires Inv(s) && s.lock.None? && t !in s.closers
    ensures var s' := Run(s, CloseSchedule(t));
            && t in s'.closers && s'.closers[t] == (if s.done then ReturnedErr else ReturnedNil)
            && s'.done && s'.closes == 1 && s'.lock.None? && s'.queue == s.queue
  {
    hide Run, LockInv, QueueInv, CloseInv;
    IdleCloses(s);
    ScheduleParts(s, t);
    CloseBegins(s, t);
    var s1 := Run(s, [CloseCall(t), CloseLoad(t)]);
    if s.done {
      ReturnedStays(s1, t, CloseSchedule(t)[2..]);
    } else {
      var s2 := Run(s1, [CloseLock(t), CloseCheck(t)]);
      var s3 := Run(s2, [CloseChannel(t), CloseStore(t)]);
      CloseEnters(s1, t);
      CloseCloses(s2, t);
      CloseEnds(s3, t);
    }
  }

  lemma IdleCloses(s: State)
    requires LockInv(s) && CloseInv(s) && s.lock.None?
    ensures s.closes == if s.done then 1 else 0
  {
  }

  lemma DialAlone(s: State, d: nat, ready: DialResult)
    requires Inv(s) && d !in s.dials
    requires !s.done ==> (ready == Conn ==> |s.queue| < CAPACITY) && (ready == ClosedError ==> s.closes > 0)
    ensures var s' := Run(s, DialSchedule(d, ready));
            && s'.done == s.done && s'.closes == s.closes && s'.lock == s.lock
            && s'.queue == if !s.done && ready == Conn then s.queue + [d] else s.queue
  {
    hide LockInv, CloseInv, QueueInv;
    DialLoaded(s, d);
    var c := DialSchedule(d, ready);
    hide Run;
    assert c == [DialCall(d), DialLoad(d)] + [c[2]];
    RunSnoc(s, [DialCall(d), DialLoad(d)], c[2]);
  }

  lemma DialLoaded(s: State, d: nat)
    requires d !in s.dials
    ensures Run(s, [DialCall(d), DialLoad(d)]) ==
            s.(dials := s.dials[d := if s.done then Refused else Selecting])
  {
    RunTwo(s, DialCall(d), DialLoad(d));
    assert s.dials[d := DialStart][d := Refused] == s.dials[d := Refused];
    assert s.dials[d := DialStart][d := Selecting] == s.dials[d := Selecting];
  }

  lemma AcceptAlone(s: State, take: bool)
    requires if take then s.queue != [] else s.closes > 0
    ensures var step := if take then AcceptTake else AcceptSeesClose;
            Run(s, [step]) == Next(s, step)
  {
    var step := if take then AcceptTake else AcceptSeesClose;
    RunSnoc(s, [], step);
    assert [] + [step] == [step];
  }
}
