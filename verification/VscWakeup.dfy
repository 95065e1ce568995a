/**
 The wake-up handshake around a packet transfer, at the grain of single memory and pin accesses:
 callers of the transfer under the mutex, the interrupt handler that counts firmware wake-ups, the
 firmware moving its own pin at will, and the interrupt thread asking whether there is something to read.
 One run is everything between two starts of the hardware, each of which zeroes the counter.
 */
module VscWakeup {

  /** How far one call of the transfer has come. */
  datatype Stage =
    | Outside
    | Locked        // holds the mutex, pin not yet lowered
    | Waiting       // pin low, in wait_event_timeout
    | Checking      // the wait is over, one way or the other: about to read the counter
    | CountSeen     // counter read positive: about to read the firmware's pin
    | Transferring  // asserted: the handshake succeeded
    | Releasing(success: bool)
    | Decremented
    | Raised        // pin high again, mutex still held

  /** Where the interrupt thread is inside spi_need_read. */
  datatype Reader = Idle | SawCount | SawHost | Answered(needRead: bool)

  datatype State = State(
    lockCnt: int,
    wakeupFwHigh: bool,
    wakeupHost: bool,
    holder: int,
    stages: map<int, Stage>,
    reader: Reader,
    interrupts: nat,
    successes: nat,
    decrements: nat)

  const NOBODY := -1

  datatype Event =
    | Interrupt
    | HostPin(level: bool)
    | Lock(t: nat)
    | LowerPin(t: nat)
    | WaitOver(t: nat)
    | ReadCount(t: nat)
    | ReadHost(t: nat)
    | TransferOver(t: nat)
    | Decrement(t: nat)
    | RaisePin(t: nat)
    | Unlock(t: nat)
    | NeedReadCount
    | NeedReadHost
    | NeedReadFw

  function StageOf(s: State, t: nat): Stage {
    if t in s.stages then s.stages[t] else Outside
  }

  function At(s: State, t: nat, stage: Stage): State {
    s.(stages := s.stages[t := stage])
  }

  function Start(host: bool): State {
    State(0, true, host, NOBODY, map[], Idle, 0, 0, 0)
  }

  predicate Enabled(s: State, e: Event) {
    match e
    case Interrupt => true
    case HostPin(_) => true
    case Lock(t) => s.holder == NOBODY && StageOf(s, t) == Outside
    case LowerPin(t) => StageOf(s, t) == Locked
    case WaitOver(t) => StageOf(s, t) == Waiting
    case ReadCount(t) => StageOf(s, t) == Checking
    case ReadHost(t) => StageOf(s, t) == CountSeen
    case TransferOver(t) => StageOf(s, t) == Transferring
    case Decrement(t) => StageOf(s, t).Releasing?
    case RaisePin(t) => StageOf(s, t) == Decremented
    case Unlock(t) => StageOf(s, t) == Raised
    case NeedReadCount => s.reader.Idle? || s.reader.Answered?
    case NeedReadHost => s.reader.SawCount?
    case NeedReadFw => s.reader.SawHost?
  }

  function Next(s: State, e: Event): State
    requires Enabled(s, e)
  {
    match e
    case Interrupt => s.(lockCnt := s.lockCnt + 1, interrupts := s.interrupts + 1)
    case HostPin(level) => s.(wakeupHost := level)
    case Lock(t) => At(s.(holder := t), t, Locked)
    case LowerPin(t) => At(s.(wakeupFwHigh := false), t, Waiting)
    case WaitOver(t) => At(s, t, Checking)
    case ReadCount(t) => At(s, t, if s.lockCnt > 0 then CountSeen else Releasing(false))
    case ReadHost(t) =>
      if s.wakeupHost then At(s.(successes := s.successes + 1), t, Transferring) else At(s, t, Releasing(false))
    case TransferOver(t) => At(s, t, Releasing(true))
    case Decrement(t) =>
      // atomic_dec_if_positive
      if s.lockCnt > 0 then At(s.(lockCnt := s.lockCnt - 1, decrements := s.decrements + 1), t, Decremented)
      else At(s, t, Decremented)
    case RaisePin(t) => At(s.(wakeupFwHigh := true), t, Raised)
    case Unlock(t) => At(s.(holder := NOBODY), t, Outside)
    case NeedReadCount => s.(reader := if s.lockCnt > 0 then SawCount else Answered(false))
    case NeedReadHost => s.(reader := if s.wakeupHost then SawHost else Answered(false))
    case NeedReadFw => s.(reader := Answered(s.wakeupFwHigh))
  }

  ghost predicate IsRun(s: State, run: seq<Event>)
    decreases |run|
  {
    run != [] ==> Enabled(s, run[0]) && IsRun(Next(s, run[0]), run[1..])
  }

  function Exec(s: State, run: seq<Event>): State
    requires IsRun(s, run)
    decreases |run|
  {
    if run == [] then s else Exec(Next(s, run[0]), run[1..])
  }

  /** Between lowering the pin and raising it again. */
  predicate PinDown(stage: Stage) {
    stage in {Waiting, Checking, CountSeen, Transferring, Decremented} || stage.Releasing?
  }

  /** A handshake that has succeeded and not yet taken its interrupt off the counter. */
  predicate Unpaid(stage: Stage) {
    stage == Transferring || stage == Releasing(true)
  }

  /** The mutex holder's stage. */
  function Holding(s: State): Stage {
    if s.holder < 0 then Outside else StageOf(s, s.holder)
  }

  /** The mutex is held by the one caller that is inside. */
  ghost predicate Mutex(s: State) {
    && (s.holder == NOBODY || s.holder >= 0)
    && (forall t: nat :: StageOf(s, t) != Outside ==> t == s.holder)
    && (s.holder >= 0 ==> StageOf(s, s.holder) != Outside)
  }

  ghost predicate Pin(s: State) {
    s.wakeupFwHigh <==> !PinDown(Holding(s))
  }

  /** Every interrupt is on the counter or taken off it, and every success has taken one off or is about to. */
  ghost predicate Counts(s: State) {
    && 0 <= s.lockCnt
    && s.interrupts == s.lockCnt + s.decrements
    && s.successes <= s.decrements + (if Unpaid(Holding(s)) then 1 else 0)
    && (Unpaid(Holding(s)) || Holding(s) == CountSeen ==> s.lockCnt > 0)
  }

  ghost predicate Inv(s: State) {
    Mutex(s) && Pin(s) && Counts(s)
  }

  lemma InvStart(host: bool)
    ensures Inv(Start(host)) && Start(host).wakeupHost == host && Start(host).interrupts == 0
  {
  }

  lemma MutexStep(s: State, e: Event)
    requires Mutex(s) && Enabled(s, e)
    ensures Mutex(Next(s, e))
  {
    var s' := Next(s, e);
    forall t: nat | StageOf(s', t) != Outside
      ensures t == s'.holder
    {
      assert StageOf(s, t) != Outside ==> t == s.holder;
    }
  }

  lemma PinStep(s: State, e: Event)
    requires Mutex(s) && Pin(s) && Enabled(s, e)
    ensures Pin(Next(s, e))
  {
  }

  lemma CountsStep(s: State, e: Event)
    requires Mutex(s) && Counts(s) && Enabled(s, e)
    ensures Counts(Next(s, e))
  {
  }

  lemma InvStep(s: State, e: Event)
    requires Inv(s) && Enabled(s, e)
    ensures Inv(Next(s, e))
  {
    hide Mutex, Pin, Counts, Next, Enabled;
    MutexStep(s, e);
    PinStep(s, e);
    CountsStep(s, e);
  }

  lemma {:induction false} InvRun(s: State, run: seq<Event>)
    requires Inv(s) && IsRun(s, run)
    ensures Inv(Exec(s, run))
    decreases |run|
  {
    if run != [] {
      InvStep(s, run[0]);
      InvRun(Next(s, run[0]), run[1..]);
    }
  }

  /**
   The handshake over every interleaving: the counter never goes negative, no more handshakes succeed
   than interrupts came, the pin is low only while the mutex is held, and with the mutex free it is high.
   */
  lemma HandshakeSafe(host: bool, run: seq<Event>)
    requires IsRun(Start(host), run)
    ensures var s := Exec(Start(host), run);
            && 0 <= s.lockCnt
            && s.successes <= s.interrupts
            && (!s.wakeupFwHigh ==> s.holder != NOBODY && PinDown(Holding(s)))
            && (s.holder == NOBODY ==> s.wakeupFwHigh && forall t: nat :: StageOf(s, t) == Outside)
  {
    InvStart(host);
    hide Exec, IsRun, Next;
    InvRun(Start(host), run);
  }

  /** Leaving: whoever gives the mutex back gives it back with the pin raised. */
  lemma ExitRaisesPin(host: bool, run: seq<Event>, t: nat)
    requires IsRun(Start(host), run) && Enabled(Exec(Start(host), run), Unlock(t))
    ensures Exec(Start(host), run).wakeupFwHigh && Exec(Start(host), run).holder == t
  {
    InvStart(host);
    hide Exec, IsRun, Next;
    InvRun(Start(host), run);
  }

  /** spi_need_read does not answer yes, at the access that decides it, while any transfer has the pin down. */
  lemma NoReadMidTransfer(host: bool, run: seq<Event>)
    requires IsRun(Start(host), run) && Enabled(Exec(Start(host), run), NeedReadFw)
    ensures var s := Exec(Start(host), run);
            Next(s, NeedReadFw).reader == Answered(true) <==> forall t: nat :: !PinDown(StageOf(s, t))
  {
    InvStart(host);
    hide Exec, IsRun;
    InvRun(Start(host), run);
    var s := Exec(Start(host), run);
    if s.holder >= 0 {
      assert PinDown(StageOf(s, s.holder)) <==> !s.wakeupFwHigh;
    }
  }

  /** The level the firmware last gave its pin. */
  function LastLevel(host: bool, run: seq<Event>): bool
    decreases |run|
  {
    if run == [] then host else LastLevel(if run[0].HostPin? then run[0].level else host, run[1..])
  }

  function Wakeups(run: seq<Event>): nat
    decreases |run|
  {
    if run == [] then 0 else (if run[0].Interrupt? then 1 else 0) + Wakeups(run[1..])
  }

  lemma {:induction false} PinsFollow(s: State, run: seq<Event>)
    requires IsRun(s, run)
    ensures var s' := Exec(s, run);
            s'.wakeupHost == LastLevel(s.wakeupHost, run) && s'.interrupts == s.interrupts + Wakeups(run)
    decreases |run|
  {
    if run != [] {
      PinsFollow(Next(s, run[0]), run[1..]);
    }
  }

  /** What the accesses that are next in `s` find: whether the counter is positive, and whether the pin is up. */
  ghost predicate Finds(s: State, woken: bool, up: bool) {
    && (forall t: nat :: Enabled(s, ReadCount(t)) ==>
          StageOf(Next(s, ReadCount(t)), t) == if woken then CountSeen else Releasing(false))
    && (forall t: nat :: Enabled(s, ReadHost(t)) ==>
          StageOf(Next(s, ReadHost(t)), t) == if up then Transferring else Releasing(false))
    && (Enabled(s, NeedReadCount) ==> Next(s, NeedReadCount).reader == if woken then SawCount else Answered(false))
    && (Enabled(s, NeedReadHost) ==> Next(s, NeedReadHost).reader == if up then SawHost else Answered(false))
  }

  lemma AccessFinds(s: State)
    ensures Finds(s, s.lockCnt > 0, s.wakeupHost)
  {
  }

  /**
   What the accesses find after any run: the counter is positive iff more wake-ups came than were taken
   off it, and the firmware's pin is up iff the firmware last raised it. So a caller transfers, and the
   interrupt thread reads, only then.
   */
  lemma {:induction false} AssertedExactly(host: bool, run: seq<Event>)
    requires IsRun(Start(host), run)
    ensures var s := Exec(Start(host), run); Finds(s, Wakeups(run) > s.decrements, LastLevel(host, run))
  {
    hide *;
    InvStart(host);
    FindsAfter(Start(host), run);
  }

  lemma FindsAfter(s: State, run: seq<Event>)
    requires Inv(s) && IsRun(s, run) && s.interrupts == 0
    ensures var s' := Exec(s, run); Finds(s', Wakeups(run) > s'.decrements, LastLevel(s.wakeupHost, run))
  {
    hide *;
    InvRun(s, run);
    PinsFollow(s, run);
    AccessFinds(Exec(s, run));
    CountPositive(Exec(s, run));
  }

  lemma {:induction false} Then(s: State, run: seq<Event>, now: State, e: Event)
    requires IsRun(s, run) && Exec(s, run) == now && Enabled(now, e)
    ensures IsRun(s, run + [e]) && Exec(s, run + [e]) == Next(now, e)
    decreases |run|
  {
    if run == [] {
      assert run + [e] == [e] && [e][1..] == [];
    } else {
      Then(Next(s, run[0]), run[1..], now, e);
      assert (run + [e])[1..] == run[1..] + [e];
    }
  }

  /** With a wake-up pending, the firmware's pin up and the mutex free, a call goes through, and only that wake-up is gone. */
  lemma OrdinaryTransfer(s: State, t: nat) returns (run: seq<Event>)
    requires Inv(s) && s.holder == NOBODY && s.lockCnt > 0 && s.wakeupHost
    ensures IsRun(s, run) && TransferOver(t) in run
    ensures Exec(s, run) == s.(stages := s.stages[t := Outside], lockCnt := s.lockCnt - 1,
                               successes := s.successes + 1, decrements := s.decrements + 1)
  {
    hide IsRun, Exec, Counts;
    run := Handshake(s, t);
    var s1 := At(s.(holder := t, wakeupFwHigh := false, successes := s.successes + 1), t, Transferring);
    Then(s, run, s1, TransferOver(t));
    run := run + [TransferOver(t)];
    var s2 := At(s1, t, Releasing(true));
    Then(s, run, s2, Decrement(t));
    run := run + [Decrement(t)];
    var s3 := At(s2.(lockCnt := s.lockCnt - 1, decrements := s.decrements + 1), t, Decremented);
    Then(s, run, s3, RaisePin(t));
    run := run + [RaisePin(t)];
    var s4 := At(s3.(wakeupFwHigh := true), t, Raised);
    Then(s, run, s4, Unlock(t));
    run := run + [Unlock(t)];
    assert s4.stages[t := Outside] == s.stages[t := Outside];
  }

  lemma Handshake(s: State, t: nat) returns (run: seq<Event>)
    requires Inv(s) && s.holder == NOBODY && s.lockCnt > 0 && s.wakeupHost
    ensures IsRun(s, run)
    ensures Exec(s, run) == At(s.(holder := t, wakeupFwHigh := false, successes := s.successes + 1), t, Transferring)
  {
    hide IsRun, Exec, Inv;
    run := Waited(s, t);
    var s3 := At(s.(holder := t, wakeupFwHigh := false), t, Checking);
    Then(s, run, s3, ReadCount(t));
    run := run + [ReadCount(t)];
    var s4 := At(s3, t, CountSeen);
    Then(s, run, s4, ReadHost(t));
    run := run + [ReadHost(t)];
    assert s4.stages[t := Transferring] == s.stages[t := Transferring];
  }

  lemma Waited(s: State, t: nat) returns (run: seq<Event>)
    requires Inv(s) && s.holder == NOBODY
    ensures IsRun(s, run)
    ensures Exec(s, run) == At(s.(holder := t, wakeupFwHigh := false), t, Checking)
  {
    assert Exec(s, []) == s;
    hide IsRun, Exec, Counts;
    Then(s, [], s, Lock(t));
    run := [] + [Lock(t)];
    var s1 := At(s.(holder := t), t, Locked);
    Then(s, run, s1, LowerPin(t));
    run := run + [LowerPin(t)];
    var s2 := At(s1.(wakeupFwHigh := false), t, Waiting);
    Then(s, run, s2, WaitOver(t));
    run := run + [WaitOver(t)];
    assert s2.stages[t := Checking] == s.stages[t := Checking];
  }

  /** And the interrupt thread, asking undisturbed, is told to read. */
  lemma OrdinaryRead(s: State)
    requires Inv(s) && s.holder == NOBODY && s.lockCnt > 0 && s.wakeupHost && (s.reader.Idle? || s.reader.Answered?)
    ensures var run := [NeedReadCount, NeedReadHost, NeedReadFw];
            IsRun(s, run) && Exec(s, run) == s.(reader := Answered(true))
  {
    assert Exec(s, []) == s;
    assert [] + [NeedReadCount] + [NeedReadHost] + [NeedReadFw] == [NeedReadCount, NeedReadHost, NeedReadFw];
    hide IsRun, Exec, Counts;
    Then(s, [], s, NeedReadCount);
    var s1 := s.(reader := SawCount);
    Then(s, [] + [NeedReadCount], s1, NeedReadHost);
    var s2 := s.(reader := SawHost);
    Then(s, [] + [NeedReadCount] + [NeedReadHost], s2, NeedReadFw);
  }

  lemma CountPositive(s: State)
    requires Inv(s)
    ensures s.lockCnt > 0 <==> s.interrupts > s.decrements
  {
  }
}
