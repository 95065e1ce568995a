/**
 The USB bridge under concurrency: any number of callers of ljca_stub_write, serialised by the mutex
 except for its first assignment, and the read completion running beside them, both at the grain of
 single assignments to the stub they share.
 */
module LjcaRuns {
  import opened Bytes
  import opened Ljca

  datatype Call = Call(stub: nat, cmd: byte, ibuf: Pointer, waitAck: bool)

  /** How far a call of ljca_stub_write has come. */
  datatype Phase =
    | Entered                        // length cleared, mutex not yet held
    | Locked
    | CmdSet
    | BufferSet
    | Armed                          // flag cleared; the message is on its way
    | Waiting
    | Passed                         // nothing left to wait for
    | LenRead(taken: nat)
    | Dropped(taken: nat)            // the stub no longer points at the buffer
    | Leaving(ret: int, len: int)    // about to unlock and return

  datatype Caller = Caller(call: Call, phase: Phase, cmdAt: nat, clearedAt: nat, whole: bool)

  /** The read completion: idle, or handling an acknowledgement whose type and command it has checked. */
  datatype Urb =
    | Idle
    | Checked(stub: nat, raw: seq<byte>, at: nat)
    | LenSet(stub: nat, raw: seq<byte>, at: nat)
    | PointerRead(stub: nat, raw: seq<byte>, at: nat, to: Pointer)   // about to copy to where the stub pointed
    | Copied(stub: nat, raw: seq<byte>, at: nat)

  /** The latest acknowledgement of a stub, and when it was checked and delivered. */
  datatype Ack = Ack(raw: seq<byte>, checked: nat, delivered: nat)

  datatype Event =
    | Enter(t: nat, call: Call)
    | Lock(t: nat)
    | SetCmd(t: nat)
    | SetBuffer(t: nat)
    | ClearAck(t: nat)
    | SendOver(t: nat, whole: bool, status: int)
    | WaitOver(t: nat, inTime: bool)
    | TakeLen(t: nat)
    | DropBuffer(t: nat)
    | ZeroLen(t: nat)
    | Unlock(t: nat)
    | UrbCheck(raw: seq<byte>)
    | UrbLen
    | UrbRead
    | UrbCopy
    | UrbAck

  const NOBODY := -1

  /** `trace` is everything that happened; moments are positions in it. */
  datatype State = State(bridge: Bridge, holder: int, callers: map<nat, Caller>, urb: Urb,
                         acks: map<nat, Ack>, trace: seq<Event>)

  function Start(stubs: seq<Stub>, memory: map<nat, seq<byte>>): State {
    State(Bridge(stubs, memory, false, []), NOBODY, map[], Idle, map[], [])
  }

  predicate In(s: State, t: nat, phase: Phase) {
    t in s.callers && s.callers[t].phase == phase
  }

  predicate Enabled(s: State, e: Event) {
    match e
    case Enter(t, call) => t !in s.callers && call.stub < |s.bridge.stubs|
    case Lock(t) => s.holder == NOBODY && In(s, t, Entered)
    case SetCmd(t) => In(s, t, Locked)
    case SetBuffer(t) => In(s, t, CmdSet)
    case ClearAck(t) => In(s, t, BufferSet)
    case SendOver(t, whole, status) => In(s, t, Armed) && (whole ==> status == 0)
    case WaitOver(t, inTime) =>
      In(s, t, Waiting) && s.callers[t].call.stub < |s.bridge.stubs|
      && (inTime ==> s.bridge.stubs[s.callers[t].call.stub].acked)
    case TakeLen(t) => In(s, t, Passed)
    case DropBuffer(t) => t in s.callers && s.callers[t].phase.LenRead?
    case ZeroLen(t) => t in s.callers && s.callers[t].phase.Dropped?
    case Unlock(t) => t in s.callers && s.callers[t].phase.Leaving?
    case UrbCheck(_) => s.urb.Idle?
    case UrbLen => s.urb.Checked?
    case UrbRead => s.urb.LenSet?
    case UrbCopy => s.urb.PointerRead?
    case UrbAck => s.urb.Copied?
  }

  /** Every reference to a stub names one that exists. */
  predicate Indexed(s: State) {
    && (forall t :: t in s.callers ==> s.callers[t].call.stub < |s.bridge.stubs|)
    && (!s.urb.Idle? ==> s.urb.stub < |s.bridge.stubs| && |s.urb.raw| >= MSG_HEADER)
  }

  function WithStub(s: State, i: nat, stub: Stub): State
    requires i < |s.bridge.stubs|
  {
    s.(bridge := s.bridge.(stubs := s.bridge.stubs[i := stub]))
  }

  function At(s: State, t: nat, phase: Phase): State
    requires t in s.callers
  {
    s.(callers := s.callers[t := s.callers[t].(phase := phase)])
  }

  /** The first half of ljca_parse: find the stub, and for an acknowledgement compare the command. */
  function Check(s: State, raw: seq<byte>): State {
    if !Validated(raw) then s
    else
      var i := Find(s.bridge.stubs, raw[0]);
      if i < 0 then s
      else if !IsAck(raw) then s.(bridge := Notify(s.bridge, i, raw))
      else if s.bridge.stubs[i].curCmd != raw[1] as int then s
      else s.(urb := Checked(i, raw, |s.trace|))
  }

  function Act(s: State, e: Event): State
    requires Indexed(s) && Enabled(s, e)
  {
    match e
    case Enter(t, call) =>
      WithStub(s, call.stub, s.bridge.stubs[call.stub].(ibufLen := 0))
      .(callers := s.callers[t := Caller(call, Entered, 0, 0, false)])
    case Lock(t) => At(s.(holder := t), t, Locked)
    case SetCmd(t) =>
      var c := s.callers[t];
      WithStub(s, c.call.stub, s.bridge.stubs[c.call.stub].(curCmd := c.call.cmd as int))
      .(callers := s.callers[t := c.(phase := CmdSet, cmdAt := |s.trace|)])
    case SetBuffer(t) =>
      var c := s.callers[t].call;
      At(WithStub(s, c.stub, s.bridge.stubs[c.stub].(ibuf := c.ibuf)), t, BufferSet)
    case ClearAck(t) =>
      var c := s.callers[t];
      WithStub(s, c.call.stub, s.bridge.stubs[c.call.stub].(acked := false))
      .(callers := s.callers[t := c.(phase := Armed, clearedAt := |s.trace|)])
    case SendOver(t, whole, status) =>
      var c := s.callers[t];
      var next := if !whole then Leaving(status, -1) else if c.call.waitAck then Waiting else Passed;
      s.(callers := s.callers[t := c.(phase := next, whole := whole)])
    case WaitOver(t, inTime) =>
      // a wait that timed out fails even if the flag has been set since
      At(s, t, if inTime then Passed else Leaving(ETIMEDOUT, -1))
    case TakeLen(t) => At(s, t, LenRead(s.bridge.stubs[s.callers[t].call.stub].ibufLen))
    case DropBuffer(t) =>
      var i := s.callers[t].call.stub;
      At(WithStub(s, i, s.bridge.stubs[i].(ibuf := Null)), t, Dropped(s.callers[t].phase.taken))
    case ZeroLen(t) =>
      var i := s.callers[t].call.stub;
      At(WithStub(s, i, s.bridge.stubs[i].(ibufLen := 0)), t, Leaving(0, s.callers[t].phase.taken))
    case Unlock(t) => s.(holder := NOBODY, callers := s.callers - {t})
    case UrbCheck(raw) => Check(s, raw)
    case UrbLen =>
      WithStub(s, s.urb.stub, s.bridge.stubs[s.urb.stub].(ibufLen := |Data(s.urb.raw)|))
      .(urb := LenSet(s.urb.stub, s.urb.raw, s.urb.at))
    case UrbRead =>
      s.(urb := PointerRead(s.urb.stub, s.urb.raw, s.urb.at, s.bridge.stubs[s.urb.stub].ibuf))
    case UrbCopy =>
      s.(bridge := Copy(s.bridge, s.urb.to, Data(s.urb.raw)),
         urb := Copied(s.urb.stub, s.urb.raw, s.urb.at))
    case UrbAck =>
      WithStub(s, s.urb.stub, s.bridge.stubs[s.urb.stub].(acked := true))
      .(urb := Idle, acks := s.acks[s.urb.stub := Ack(s.urb.raw, s.urb.at, |s.trace|)])
  }

  function Next(s: State, e: Event): State
    requires Indexed(s) && Enabled(s, e)
  {
    Act(s, e).(trace := s.trace + [e])
  }

  lemma StubsStay(s: State, e: Event)
    requires Indexed(s) && Enabled(s, e)
    ensures |Next(s, e).bridge.stubs| == |s.bridge.stubs|
  {
    hide Find, Copy, Notify, Validated, IsAck, Data;
  }

  lemma CallsStay(s: State, e: Event)
    requires Indexed(s) && Enabled(s, e)
    ensures forall t :: t in Next(s, e).callers ==> Next(s, e).callers[t].call.stub < |s.bridge.stubs|
  {
    hide Find, Copy, Notify, Validated, IsAck, Data;
  }

  lemma NextIndexed(s: State, e: Event)
    requires Indexed(s) && Enabled(s, e)
    ensures Indexed(Next(s, e))
  {
    StubsStay(s, e);
    CallsStay(s, e);
    hide Find, Copy, Notify, IsAck, Data;
  }

  ghost predicate IsRun(s: State, run: seq<Event>)
    requires Indexed(s)
    decreases |run|
  {
    run != [] ==> Enabled(s, run[0]) && (NextIndexed(s, run[0]); IsRun(Next(s, run[0]), run[1..]))
  }

  function Exec(s: State, run: seq<Event>): State
    requires Indexed(s) && IsRun(s, run)
    decreases |run|
  {
    if run == [] then s else (NextIndexed(s, run[0]); Exec(Next(s, run[0]), run[1..]))
  }

  // What every step keeps.

  ghost predicate MutexHeld(s: State) {
    && (s.holder == NOBODY || s.holder >= 0)
    && (forall t :: t in s.callers && s.callers[t].phase != Entered ==> t == s.holder)
    && (s.holder >= 0 ==> s.holder in s.callers && s.callers[s.holder].phase != Entered)
  }

  predicate Commanded(c: Caller) {
    c.phase != Entered && c.phase != Locked
  }

  predicate Cleared(c: Caller) {
    Commanded(c) && c.phase != CmdSet && c.phase != BufferSet
  }

  /** Waiting for, or taking over, what an acknowledgement left behind. */
  predicate Live(c: Caller) {
    c.phase == Armed || c.phase == Waiting || c.phase == Passed || c.phase.LenRead?
  }

  /** About to return zero after a message that went out whole. */
  predicate Succeeded(c: Caller) {
    c.phase.Leaving? && c.phase.ret == 0 && c.whole
  }

  /** A message the completion accepted, checked at `at`: its command was then the stub's. */
  ghost predicate Genuine(s: State, raw: seq<byte>, i: nat, at: nat) {
    && i < |s.bridge.stubs|
    && Validated(raw) && IsAck(raw) && raw[0] == s.bridge.stubs[i].typ
    && at < |s.trace| && s.trace[at] == UrbCheck(raw)
  }

  /** If the caller set the command before that check, the message carries it. */
  ghost predicate Matches(c: Caller, raw: seq<byte>, i: nat, at: nat)
    requires |raw| >= MSG_HEADER
  {
    Commanded(c) && c.call.stub == i && c.cmdAt < at ==> raw[1] == c.call.cmd
  }

  /** What is known of caller `t`, at stub `stub`. */
  ghost predicate Fits(c: Caller, t: nat, stub: Stub, acks: map<nat, Ack>, trace: seq<Event>) {
    && (Commanded(c) ==> stub.curCmd == c.call.cmd as int && c.cmdAt < |trace| && trace[c.cmdAt] == SetCmd(t))
    && (Cleared(c) ==> c.cmdAt < c.clearedAt < |trace| && trace[c.clearedAt] == ClearAck(t))
    && (Cleared(c) && stub.acked ==> c.call.stub in acks && acks[c.call.stub].delivered > c.clearedAt)
    && (c.phase == BufferSet || Live(c) ==> stub.ibuf == c.call.ibuf)
    && (c.phase.Dropped? || Succeeded(c) ==> stub.ibuf == Null)
    && Outcome(c, stub.acked)
  }

  /** Past the send, what the flag says about the phase. */
  predicate Outcome(c: Caller, acked: bool) {
    && (c.phase == Waiting ==> c.whole && c.call.waitAck)
    && (c.phase == Passed || c.phase.LenRead? || c.phase.Dropped? || Succeeded(c) ==>
          c.whole && (c.call.waitAck ==> acked))
    && (c.phase.Leaving? && c.whole ==> c.phase.ret == 0 || c.phase.ret == ETIMEDOUT)
  }

  ghost predicate CallerOk(s: State, t: nat, c: Caller)
    requires Indexed(s) && t in s.callers && s.callers[t] == c
  {
    Fits(c, t, s.bridge.stubs[c.call.stub], s.acks, s.trace)
  }

  ghost predicate UrbOk(s: State)
    requires Indexed(s)
  {
    !s.urb.Idle? ==>
      && Genuine(s, s.urb.raw, s.urb.stub, s.urb.at)
      && forall t :: t in s.callers ==> Matches(s.callers[t], s.urb.raw, s.urb.stub, s.urb.at)
  }

  ghost predicate AckOk(s: State, i: nat, a: Ack) {
    && Genuine(s, a.raw, i, a.checked)
    && a.checked < a.delivered < |s.trace| && s.trace[a.delivered] == UrbAck
    && forall t :: t in s.callers ==> Matches(s.callers[t], a.raw, i, a.checked)
  }

  ghost predicate AcksOk(s: State) {
    forall i :: i in s.acks ==> AckOk(s, i, s.acks[i])
  }

  ghost predicate Inv(s: State) {
    && Indexed(s)
    && MutexHeld(s)
    && (forall t :: t in s.callers ==> CallerOk(s, t, s.callers[t]))
    && UrbOk(s)
    && AcksOk(s)
  }

  lemma InvStart(stubs: seq<Stub>, memory: map<nat, seq<byte>>)
    ensures Inv(Start(stubs, memory))
  {
  }

  predicate IsUrb(e: Event) {
    e.UrbCheck? || e.UrbLen? || e.UrbRead? || e.UrbCopy? || e.UrbAck?
  }

  lemma MutexStep(s: State, e: Event)
    requires Indexed(s) && MutexHeld(s) && Enabled(s, e)
    ensures MutexHeld(Next(s, e))
  {
    hide Find, Copy, Notify, Validated, IsAck, Data;
  }

  lemma TypesStay(s: State, e: Event)
    requires Indexed(s) && Enabled(s, e)
    ensures |Next(s, e).bridge.stubs| == |s.bridge.stubs|
    ensures forall i :: 0 <= i < |s.bridge.stubs| ==> Next(s, e).bridge.stubs[i].typ == s.bridge.stubs[i].typ
  {
    hide Find, Copy, Notify, Validated, IsAck, Data;
  }

  lemma GenuineStays(s: State, e: Event, raw: seq<byte>, i: nat, at: nat)
    requires Indexed(s) && Enabled(s, e) && Genuine(s, raw, i, at)
    ensures Genuine(Next(s, e), raw, i, at)
  {
    hide Act, Validated, IsAck, Enabled;
    TypesStay(s, e);
  }

  /** A message that matches every caller keeps doing so: a command set later is set after the check. */
  lemma MatchesStay(s: State, e: Event, raw: seq<byte>, i: nat, at: nat)
    requires Indexed(s) && Enabled(s, e) && |raw| >= MSG_HEADER && at < |s.trace|
    requires forall t :: t in s.callers ==> Matches(s.callers[t], raw, i, at)
    ensures forall t :: t in Next(s, e).callers ==> Matches(Next(s, e).callers[t], raw, i, at)
  {
    hide Find, Copy, Notify, Validated, IsAck, Data;
  }

  /** A completed check: the command compared equal, so the message matches whoever set it before. */
  lemma CheckMatches(s: State, raw: seq<byte>)
    requires Inv(s) && s.urb.Idle?
    ensures (NextIndexed(s, UrbCheck(raw)); UrbOk(Next(s, UrbCheck(raw))))
  {
    hide Find, AcksOk, MutexHeld;
    var i := Find(s.bridge.stubs, if Validated(raw) then raw[0] else 0);
    var s' := Next(s, UrbCheck(raw));
    if s'.urb.Checked? {
      forall t | t in s'.callers
        ensures Matches(s'.callers[t], raw, i, |s.trace|)
      {
        assert CallerOk(s, t, s.callers[t]);
      }
    }
  }

  lemma UrbStep(s: State, e: Event)
    requires Inv(s) && Enabled(s, e)
    ensures Indexed(Next(s, e)) && UrbOk(Next(s, e))
  {
    NextIndexed(s, e);
    if e.UrbCheck? {
      CheckMatches(s, e.raw);
    } else if !s.urb.Idle? {
      assert UrbOk(s);
      GenuineStays(s, e, s.urb.raw, s.urb.stub, s.urb.at);
      MatchesStay(s, e, s.urb.raw, s.urb.stub, s.urb.at);
      hide Find, Copy, Genuine, Matches, AcksOk, MutexHeld, CallerOk, Data, WithStub;
    } else {
      hide Find, Copy, Genuine, Matches, AcksOk, MutexHeld, CallerOk, Data, WithStub;
    }
  }

  lemma AcksAfter(s: State, e: Event)
    requires Indexed(s) && Enabled(s, e)
    ensures Next(s, e).trace == s.trace + [e]
    ensures Next(s, e).acks == if e.UrbAck? then s.acks[s.urb.stub := Ack(s.urb.raw, s.urb.at, |s.trace|)] else s.acks
  {
    hide Find, Copy, Notify, Data;
  }

  lemma AckStays(s: State, e: Event, i: nat, a: Ack)
    requires Indexed(s) && Enabled(s, e) && AckOk(s, i, a)
    ensures AckOk(Next(s, e), i, a)
  {
    GenuineStays(s, e, a.raw, i, a.checked);
    MatchesStay(s, e, a.raw, i, a.checked);
    AcksAfter(s, e);
    hide Act, Enabled;
  }

  lemma AcksStep(s: State, e: Event)
    requires Inv(s) && Enabled(s, e)
    ensures AcksOk(Next(s, e))
  {
    var s' := Next(s, e);
    AcksAfter(s, e);
    hide Act;
    forall i | i in s'.acks
      ensures AckOk(s', i, s'.acks[i])
    {
      if e.UrbAck? && i == s.urb.stub {
        GenuineStays(s, e, s.urb.raw, i, s.urb.at);
        MatchesStay(s, e, s.urb.raw, i, s.urb.at);
      } else {
        AckStays(s, e, i, s.acks[i]);
      }
    }
  }

  /** Who may change a stub's command and flag. */
  lemma StubAfter(s: State, e: Event, i: nat)
    requires Indexed(s) && Enabled(s, e) && i < |s.bridge.stubs|
    ensures i < |Next(s, e).bridge.stubs|
    ensures var stub, stub' := s.bridge.stubs[i], Next(s, e).bridge.stubs[i];
            && (stub'.curCmd == if e.SetCmd? && s.callers[e.t].call.stub == i then s.callers[e.t].call.cmd as int else stub.curCmd)
            && (stub'.ibuf == if e.SetBuffer? && s.callers[e.t].call.stub == i then s.callers[e.t].call.ibuf
                              else if e.DropBuffer? && s.callers[e.t].call.stub == i then Null else stub.ibuf)
            && (stub'.acked == if e.ClearAck? && s.callers[e.t].call.stub == i then false
                               else if e.UrbAck? && s.urb.stub == i then true else stub.acked)
  {
    hide Find, Copy, Notify, Validated, IsAck, Data;
  }

  /** A caller that does not itself take this step. */
  lemma OtherCaller(s: State, e: Event, t: nat)
    requires Inv(s) && Enabled(s, e) && t in s.callers && Indexed(Next(s, e))
    requires IsUrb(e) || e.t != t
    ensures t in Next(s, e).callers && Next(s, e).callers[t] == s.callers[t]
    ensures CallerOk(Next(s, e), t, s.callers[t])
  {
    hide Act, UrbOk, AcksOk;
    StubAfter(s, e, s.callers[t].call.stub);
    AcksAfter(s, e);
    CallersAfter(s, e, t);
  }

  lemma CallersAfter(s: State, e: Event, t: nat)
    requires Indexed(s) && Enabled(s, e) && t in s.callers
    requires IsUrb(e) || e.t != t
    ensures t in Next(s, e).callers && Next(s, e).callers[t] == s.callers[t]
  {
    hide Find, Copy, Notify, Data, Validated, IsAck;
  }

  /** What a caller's own step makes of it. */
  function Stepped(s: State, e: Event): Caller
    requires Indexed(s) && Enabled(s, e) && !IsUrb(e) && !e.Unlock?
  {
    if e.Enter? then Caller(e.call, Entered, 0, 0, false)
    else
      var c := s.callers[e.t];
      var stub := s.bridge.stubs[c.call.stub];
      match e
      case Lock(_) => c.(phase := Locked)
      case SetCmd(_) => c.(phase := CmdSet, cmdAt := |s.trace|)
      case SetBuffer(_) => c.(phase := BufferSet)
      case ClearAck(_) => c.(phase := Armed, clearedAt := |s.trace|)
      case SendOver(_, whole, status) =>
        c.(phase := if !whole then Leaving(status, -1) else if c.call.waitAck then Waiting else Passed, whole := whole)
      case WaitOver(_, inTime) => c.(phase := if inTime then Passed else Leaving(ETIMEDOUT, -1))
      case TakeLen(_) => c.(phase := LenRead(stub.ibufLen))
      case DropBuffer(_) => c.(phase := Dropped(c.phase.taken))
      case ZeroLen(_) => c.(phase := Leaving(0, c.phase.taken))
  }

  lemma OwnAfter(s: State, e: Event)
    requires Indexed(s) && Enabled(s, e) && !IsUrb(e) && !e.Unlock?
    ensures e.t in Next(s, e).callers && Next(s, e).callers[e.t] == Stepped(s, e)
  {
  }

  lemma StepFits(s: State, e: Event, stub: Stub)
    requires Indexed(s) && Enabled(s, e) && !IsUrb(e) && !e.Unlock? && !e.Enter?
    requires Fits(s.callers[e.t], e.t, s.bridge.stubs[s.callers[e.t].call.stub], s.acks, s.trace)
    requires var c, was := s.callers[e.t], s.bridge.stubs[s.callers[e.t].call.stub];
             && (stub.curCmd == if e.SetCmd? then c.call.cmd as int else was.curCmd)
             && (stub.acked == if e.ClearAck? then false else was.acked)
             && (stub.ibuf == if e.SetBuffer? then c.call.ibuf else if e.DropBuffer? then Null else was.ibuf)
    ensures Fits(Stepped(s, e), e.t, stub, s.acks, s.trace + [e])
  {
    hide Indexed;
  }

  /** The caller that takes this step. */
  lemma OwnStep(s: State, e: Event)
    requires Inv(s) && Enabled(s, e) && !IsUrb(e) && !e.Unlock?
    ensures Indexed(Next(s, e)) && e.t in Next(s, e).callers
    ensures CallerOk(Next(s, e), e.t, Next(s, e).callers[e.t])
  {
    NextIndexed(s, e);
    OwnAfter(s, e);
    StubAfter(s, e, Stepped(s, e).call.stub);
    AcksAfter(s, e);
    if !e.Enter? {
      assert CallerOk(s, e.t, s.callers[e.t]);
      StepFits(s, e, Next(s, e).bridge.stubs[s.callers[e.t].call.stub]);
      hide Fits;
    }
    hide Act, UrbOk, MutexHeld;
  }

  lemma InvStep(s: State, e: Event)
    requires Inv(s) && Enabled(s, e)
    ensures Inv(Next(s, e))
  {
    var s' := Next(s, e);
    NextIndexed(s, e);
    MutexStep(s, e);
    UrbStep(s, e);
    AcksStep(s, e);
    CallersGrow(s, e);
    forall t | t in s'.callers
      ensures CallerOk(s', t, s'.callers[t])
    {
      if IsUrb(e) || e.t != t {
        OtherCaller(s, e, t);
      } else {
        OwnStep(s, e);
      }
    }
    hide Act, CallerOk, UrbOk, AcksOk, MutexHeld;
  }

  lemma CallersGrow(s: State, e: Event)
    requires Indexed(s) && Enabled(s, e)
    ensures Next(s, e).callers.Keys ==
              if e.Unlock? then s.callers.Keys - {e.t} else if e.Enter? then s.callers.Keys + {e.t} else s.callers.Keys
  {
    hide Find, Copy, Notify, Data, Validated, IsAck;
  }

  lemma {:induction false} InvRun(s: State, run: seq<Event>)
    requires Inv(s) && IsRun(s, run)
    ensures Inv(Exec(s, run))
    decreases |run|
  {
    hide Next, CallerOk, UrbOk, AcksOk, MutexHeld, Enabled;
    if run != [] {
      InvStep(s, run[0]);
      InvRun(Next(s, run[0]), run[1..]);
    }
  }
}
