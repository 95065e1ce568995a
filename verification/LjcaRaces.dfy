/** Runs of the USB bridge in which a call returns zero with something other than its own acknowledgement. */
module LjcaRaces {
  import opened Bytes
  import opened Ljca
  import opened LjcaRuns
  import opened LjcaSafety

  const SPI: byte := 5

  function Spi(curCmd: int, acked: bool, ibuf: Pointer, ibufLen: nat): Stub {
    Stub(SPI, curCmd, acked, ibuf, ibufLen, false)
  }

  /** A waiting call on the one stub. */
  function Plain(cmd: byte, ibuf: Pointer): Call {
    Call(0, cmd, ibuf, true)
  }

  /** One stub, and one two-byte buffer. */
  function Begin(): State {
    Start([Spi(0, false, Null, 0)], map[0 := [0, 0]])
  }

  ghost predicate Reached(run: seq<Event>, s: State) {
    Leads(Begin(), run, s)
  }

  lemma BeginReached()
    ensures Reached([], Begin())
  {
    LeadsNowhere(Begin());
  }

  lemma ReachedIndexed(run: seq<Event>, s: State)
    requires Reached(run, s)
    ensures Indexed(s)
  {
  }

  /** What a caller's own step makes of its stub. */
  function StubMoved(stub: Stub, c: Caller, e: Event): Stub {
    match e
    case SetCmd(_) => stub.(curCmd := c.call.cmd as int)
    case SetBuffer(_) => stub.(ibuf := c.call.ibuf)
    case ClearAck(_) => stub.(acked := false)
    case DropBuffer(_) => stub.(ibuf := Null)
    case ZeroLen(_) => stub.(ibufLen := 0)
    case _ => stub
  }

  /** A caller at the door. */
  lemma Knock(run: seq<Event>, s: State, t: nat, call: Call) returns (run': seq<Event>, s': State)
    requires Reached(run, s) && t !in s.callers && call.stub == 0 && |s.bridge.stubs| == 1
    ensures Reached(run', s') && |s'.trace| == |s.trace| + 1
    ensures s'.bridge == s.bridge.(stubs := [s.bridge.stubs[0].(ibufLen := 0)])
    ensures s'.callers == s.callers[t := Caller(call, Entered, 0, 0, false)]
    ensures s'.holder == s.holder && s'.urb == s.urb && s'.acks == s.acks
  {
    Go(Begin(), run, s, Enter(t, call));
    run', s' := run + [Enter(t, call)], Next(s, Enter(t, call));
    hide IsRun, Exec, Begin;
  }

  /** One step of a caller past the door. */
  lemma Own(run: seq<Event>, s: State, e: Event) returns (run': seq<Event>, s': State)
    requires Reached(run, s) && Enabled(s, e) && !IsUrb(e) && !e.Unlock? && !e.Enter?
    requires |s.bridge.stubs| == 1 && Indexed(s)
    ensures Reached(run', s') && |s'.trace| == |s.trace| + 1
    ensures s'.bridge == s.bridge.(stubs := [StubMoved(s.bridge.stubs[0], s.callers[e.t], e)])
    ensures s'.callers == s.callers[e.t := Stepped(s, e)]
    ensures s'.holder == (if e.Lock? then e.t else s.holder) && s'.urb == s.urb && s'.acks == s.acks
  {
    Go(Begin(), run, s, e);
    assert s.callers[e.t].call.stub == 0;
    run', s' := run + [e], Next(s, e);
    hide Leads, Find, Indexed, Begin;
  }

  lemma Leave(run: seq<Event>, s: State, t: nat) returns (run': seq<Event>, s': State)
    requires Reached(run, s) && Enabled(s, Unlock(t)) && Indexed(s)
    ensures Reached(run', s') && |s'.trace| == |s.trace| + 1
    ensures s'.bridge == s.bridge && s'.callers == s.callers - {t} && s'.holder == NOBODY && s'.urb == s.urb && s'.acks == s.acks
  {
    Go(Begin(), run, s, Unlock(t));
    run', s' := run + [Unlock(t)], Next(s, Unlock(t));
    hide Leads, Indexed, Begin;
  }

  /** The completion takes an acknowledgement of the stub's current command. */
  lemma Accept(run: seq<Event>, s: State, raw: seq<byte>) returns (run': seq<Event>, s': State)
    requires Reached(run, s) && s.urb == Idle && Indexed(s) && |s.bridge.stubs| == 1
    requires Answers(raw, s.bridge.stubs[0].typ, s.bridge.stubs[0].curCmd)
    ensures Reached(run', s') && |s'.trace| == |s.trace| + 1
    ensures s'.bridge == s.bridge && s'.callers == s.callers && s'.holder == s.holder && s'.acks == s.acks
    ensures s'.urb == Checked(0, raw, |s.trace|)
  {
    Go(Begin(), run, s, UrbCheck(raw));
    run', s' := run + [UrbCheck(raw)], Next(s, UrbCheck(raw));
    assert Find(s.bridge.stubs, raw[0]) == 0;
    hide Leads, Find, Indexed, Begin;
  }

  /** The completion writes the length and reads the pointer. */
  lemma Reads(run: seq<Event>, s: State) returns (run': seq<Event>, s': State)
    requires Reached(run, s) && s.urb.Checked? && Indexed(s) && |s.bridge.stubs| == 1
    ensures |s.urb.raw| >= MSG_HEADER && Reached(run', s') && |s'.trace| == |s.trace| + 2
    ensures s'.bridge == s.bridge.(stubs := [s.bridge.stubs[0].(ibufLen := |Data(s.urb.raw)|)])
    ensures s'.callers == s.callers && s'.holder == s.holder && s'.acks == s.acks
    ensures s'.urb == PointerRead(0, s.urb.raw, s.urb.at, s.bridge.stubs[0].ibuf)
  {
    Go(Begin(), run, s, UrbLen);
    var s1 := Next(s, UrbLen);
    Go(Begin(), run + [UrbLen], s1, UrbRead);
    run', s' := run + [UrbLen] + [UrbRead], Next(s1, UrbRead);
    hide Leads, Begin, Data;
  }

  /** It copies. */
  lemma Copies(run: seq<Event>, s: State) returns (run': seq<Event>, s': State)
    requires Reached(run, s) && s.urb.PointerRead? && Indexed(s)
    ensures |s.urb.raw| >= MSG_HEADER && Reached(run', s') && |s'.trace| == |s.trace| + 1
    ensures s'.bridge == Copy(s.bridge, s.urb.to, Data(s.urb.raw))
    ensures s'.callers == s.callers && s'.holder == s.holder && s'.acks == s.acks
    ensures s'.urb == Copied(s.urb.stub, s.urb.raw, s.urb.at)
  {
    Go(Begin(), run, s, UrbCopy);
    run', s' := run + [UrbCopy], Next(s, UrbCopy);
    hide Leads, Begin, Data, Copy;
  }

  /** It sets the flag. */
  lemma Acks(run: seq<Event>, s: State) returns (run': seq<Event>, s': State)
    requires Reached(run, s) && s.urb.Copied? && Indexed(s) && |s.bridge.stubs| == 1
    ensures Reached(run', s') && |s'.trace| == |s.trace| + 1
    ensures s'.bridge == s.bridge.(stubs := [s.bridge.stubs[0].(acked := true)])
    ensures s'.callers == s.callers && s'.holder == s.holder && s'.urb == Idle
    ensures s'.acks == s.acks[0 := Ack(s.urb.raw, s.urb.at, |s.trace|)]
  {
    Go(Begin(), run, s, UrbAck);
    run', s' := run + [UrbAck], Next(s, UrbAck);
    assert s.urb.stub == 0;
    hide Leads, Begin, Indexed;
  }

  /** A whole completion past its check. */
  lemma Completes(run: seq<Event>, s: State) returns (run': seq<Event>, s': State)
    requires Reached(run, s) && s.urb.Checked? && Indexed(s) && |s.bridge.stubs| == 1
    ensures |s.urb.raw| >= MSG_HEADER && Reached(run', s') && |s'.trace| == |s.trace| + 4
    ensures var copied := Copy(s.bridge, s.bridge.stubs[0].ibuf, Data(s.urb.raw));
            s'.bridge == copied.(stubs := [s.bridge.stubs[0].(ibufLen := |Data(s.urb.raw)|, acked := true)])
    ensures s'.callers == s.callers && s'.holder == s.holder && s'.urb == Idle
    ensures s'.acks == s.acks[0 := Ack(s.urb.raw, s.urb.at, |s.trace| + 3)]
  {
    hide Reached, Indexed;
    var s1, s2;
    run', s1 := Reads(run, s);
    ReachedIndexed(run', s1);
    run', s2 := Copies(run', s1);
    ReachedIndexed(run', s2);
    run', s' := Acks(run', s2);
  }

  function ArmedCaller(call: Call, n: nat): Caller {
    Caller(call, Armed, n, n + 2, false)
  }

  /** Through the door. */
  lemma TakeMutex(run: seq<Event>, s: State, t: nat, call: Call) returns (run': seq<Event>, s': State)
    requires Reached(run, s) && s.holder == NOBODY && s.callers == map[] && call.stub == 0 && |s.bridge.stubs| == 1
    ensures Reached(run', s') && |s'.trace| == |s.trace| + 2
    ensures s'.bridge == s.bridge.(stubs := [s.bridge.stubs[0].(ibufLen := 0)])
    ensures s'.holder == t && s'.callers == map[t := Caller(call, Locked, 0, 0, false)] && s'.urb == s.urb && s'.acks == s.acks
  {
    hide Reached, Indexed;
    var s1;
    run', s1 := Knock(run, s, t, call);
    ReachedIndexed(run', s1);
    run', s' := Own(run', s1, Lock(t));
  }

  /** On to the stub set up, its flag not yet cleared. */
  lemma SetUp(run: seq<Event>, s: State, t: nat, call: Call) returns (run': seq<Event>, s': State)
    requires Reached(run, s) && s.holder == NOBODY && s.callers == map[] && call.stub == 0 && |s.bridge.stubs| == 1
    ensures Reached(run', s') && |s'.trace| == |s.trace| + 4
    ensures s'.bridge == s.bridge.(stubs := [s.bridge.stubs[0].(ibufLen := 0, curCmd := call.cmd as int, ibuf := call.ibuf)])
    ensures s'.holder == t && s'.callers == map[t := Caller(call, BufferSet, |s.trace| + 2, 0, false)] && s'.urb == s.urb && s'.acks == s.acks
  {
    hide Reached, Indexed;
    var s1, s2;
    run', s1 := TakeMutex(run, s, t, call);
    ReachedIndexed(run', s1);
    run', s2 := Own(run', s1, SetCmd(t));
    ReachedIndexed(run', s2);
    run', s' := Own(run', s2, SetBuffer(t));
  }

  /** From the door to the armed stub, nobody interfering. */
  lemma Arm(run: seq<Event>, s: State, t: nat, call: Call) returns (run': seq<Event>, s': State)
    requires Reached(run, s) && s.holder == NOBODY && s.callers == map[] && call.stub == 0 && |s.bridge.stubs| == 1
    ensures Reached(run', s') && |s'.trace| == |s.trace| + 5
    ensures var stub := s.bridge.stubs[0].(ibufLen := 0, curCmd := call.cmd as int, ibuf := call.ibuf, acked := false);
            s'.bridge == s.bridge.(stubs := [stub])
    ensures s'.holder == t && s'.callers == map[t := ArmedCaller(call, |s.trace| + 2)] && s'.urb == s.urb && s'.acks == s.acks
  {
    hide Reached, Indexed;
    var s1;
    run', s1 := SetUp(run, s, t, call);
    ReachedIndexed(run', s1);
    run', s' := Own(run', s1, ClearAck(t));
  }

  /** The send is over and the wait has ended with the flag set. */
  lemma Pass(run: seq<Event>, s: State, t: nat) returns (run': seq<Event>, s': State)
    requires Reached(run, s) && In(s, t, Armed) && |s.bridge.stubs| == 1 && s.bridge.stubs[0].acked
    requires s.callers[t].call.stub == 0 && s.callers[t].call.waitAck
    ensures Reached(run', s') && |s'.trace| == |s.trace| + 2
    ensures s'.bridge == s.bridge && s'.callers == s.callers[t := s.callers[t].(phase := Passed, whole := true)]
    ensures s'.holder == s.holder && s'.urb == s.urb && s'.acks == s.acks
  {
    hide Reached, Indexed;
    ReachedIndexed(run, s);
    var s1;
    run', s1 := Own(run, s, SendOver(t, true, 0));
    ReachedIndexed(run', s1);
    run', s' := Own(run', s1, WaitOver(t, true));
  }

  /** The last three steps before the mutex is given back. */
  lemma Finish(run: seq<Event>, s: State, t: nat) returns (run': seq<Event>, s': State)
    requires Reached(run, s) && In(s, t, Passed) && |s.bridge.stubs| == 1 && s.callers[t].call.stub == 0
    ensures Reached(run', s') && |s'.trace| == |s.trace| + 3
    ensures s'.bridge == s.bridge.(stubs := [s.bridge.stubs[0].(ibuf := Null, ibufLen := 0)])
    ensures s'.callers == s.callers[t := s.callers[t].(phase := Leaving(0, s.bridge.stubs[0].ibufLen))]
    ensures s'.holder == s.holder && s'.urb == s.urb && s'.acks == s.acks
  {
    hide Reached, Indexed;
    ReachedIndexed(run, s);
    var s1, s2;
    run', s1 := Own(run, s, TakeLen(t));
    ReachedIndexed(run', s1);
    run', s2 := Own(run', s1, DropBuffer(t));
    ReachedIndexed(run', s2);
    run', s' := Own(run', s2, ZeroLen(t));
  }

  /** A caller whose wait is over without an acknowledgement, about to unlock. */
  lemma TimedOut() returns (run: seq<Event>, s: State)
    ensures Reached(run, s) && s.holder == 0 && s.acks == map[]
    ensures s.callers == map[0 := ArmedCaller(Plain(1, Null), 2).(phase := Leaving(ETIMEDOUT, -1), whole := true)]
    ensures s.bridge == Begin().bridge.(stubs := [Spi(1, false, Null, 0)]) && s.urb == Idle && |s.trace| == 7
  {
    BeginReached();
    run, s := Arm([], Begin(), 0, Plain(1, Null));
    hide Reached, Begin, Indexed;
    ReachedIndexed(run, s);
    run, s := Own(run, s, SendOver(0, true, 0));
    ReachedIndexed(run, s);
    run, s := Own(run, s, WaitOver(0, false));
  }

  /** It unlocks while the completion is between the check and the delivery of its late acknowledgement. */
  lemma TimedOutInDelivery(raw: seq<byte>) returns (run: seq<Event>, s: State)
    requires Answers(raw, SPI, 1)
    ensures Reached(run, s) && s.holder == NOBODY && s.callers == map[] && s.acks == map[]
    ensures s.bridge == Begin().bridge.(stubs := [Spi(1, false, Null, 0)]) && s.urb == Checked(0, raw, 7) && |s.trace| == 9
  {
    hide Reached, Begin, Answers, Indexed;
    run, s := TimedOut();
    ReachedIndexed(run, s);
    run, s := Accept(run, s, raw);
    ReachedIndexed(run, s);
    run, s := Leave(run, s, 0);
  }

  /**
   The command is not always the caller's own: a late acknowledgement of command 1, checked before a
   second caller takes the mutex for command 2 and delivered after, completes the second caller.
   */
  lemma WrongCommandCompletes() returns (run: seq<Event>, s: State)
    ensures Reached(run, s)
    ensures 1 in s.callers && Succeeded(s.callers[1]) && s.callers[1].call == Plain(2, Null) && 0 in s.acks
    ensures Answers(s.acks[0].raw, SPI, 1) && !Answers(s.acks[0].raw, SPI, 2)
  {
    var raw := Encode(SPI, 1, ACK_FLAG, []);
    run, s := TimedOutInDelivery(raw);
    hide Reached, Answers, Begin, Indexed;
    run, s := Arm(run, s, 1, Plain(2, Null));
    ReachedIndexed(run, s);
    run, s := Completes(run, s);
    run, s := Pass(run, s, 1);
    run, s := Finish(run, s, 1);
  }

  /** A waiting call on buffer 0, acknowledged with `data`. */
  lemma Acknowledged(cmd: byte, ibuf: Pointer, raw: seq<byte>) returns (run: seq<Event>, s: State)
    requires Answers(raw, SPI, cmd as int)
    ensures |raw| >= MSG_HEADER && Reached(run, s) && s.holder == 0 && s.urb == Idle && |s.trace| == 12
    ensures s.callers == map[0 := ArmedCaller(Plain(cmd, ibuf), 2).(phase := Passed, whole := true)]
    ensures s.bridge == Copy(Begin().bridge, ibuf, Data(raw)).(stubs := [Spi(cmd as int, true, ibuf, |Data(raw)|)])
    ensures s.acks == map[0 := Ack(raw, 5, 9)]
  {
    BeginReached();
    run, s := Arm([], Begin(), 0, Plain(cmd, ibuf));
    hide Reached, Indexed, Answers, Data;
    ReachedIndexed(run, s);
    run, s := Accept(run, s, raw);
    ReachedIndexed(run, s);
    run, s := Completes(run, s);
    run, s := Pass(run, s, 0);
  }

  /**
   The length is not always the acknowledgement's: a second caller on the same stub clears it at the
   door, after the delivery and before the first caller reads it. The completion was never disturbed.
   */
  lemma OverlappingCallerClearsLength() returns (run: seq<Event>, s: State)
    ensures Reached(run, s)
    ensures 0 in s.callers && Succeeded(s.callers[0]) && s.callers[0].phase.len == 0 && 0 in s.acks
    ensures Answers(s.acks[0].raw, SPI, 1) && s.callers[0].clearedAt < s.acks[0].checked && |Data(s.acks[0].raw)| == 2
  {
    var raw := Encode(SPI, 1, ACK_FLAG, [7, 7]);
    run, s := Acknowledged(1, Null, raw);
    hide Reached, Answers, Begin, Indexed;
    run, s := Knock(run, s, 1, Plain(2, Null));
    run, s := Finish(run, s, 0);
  }

  /** A second call of the same command is at the door, its buffer not yet handed over, when the completion copies nowhere. */
  lemma CopiedNowhere(raw: seq<byte>) returns (run: seq<Event>, s: State)
    requires Answers(raw, SPI, 1)
    ensures |raw| >= MSG_HEADER && Reached(run, s) && s.holder == NOBODY && s.acks == map[]
    ensures s.callers == map[1 := Caller(Plain(1, Buffer(0)), Entered, 0, 0, false)] && s.urb == Copied(0, raw, 7)
    ensures s.bridge == Begin().bridge.(stubs := [Spi(1, false, Null, |Data(raw)|)])
  {
    run, s := TimedOutInDelivery(raw);
    hide Reached, Answers, Indexed, Data;
    run, s := Knock(run, s, 1, Plain(1, Buffer(0)));
    ReachedIndexed(run, s);
    run, s := Reads(run, s);
    ReachedIndexed(run, s);
    run, s := Copies(run, s);
  }

  /** It sets itself up and is completed by that acknowledgement. */
  lemma SetUpPastPointer(raw: seq<byte>) returns (run: seq<Event>, s: State)
    requires Answers(raw, SPI, 1)
    ensures |raw| >= MSG_HEADER && Reached(run, s) && In(s, 1, Armed) && s.callers[1].call == Plain(1, Buffer(0))
    ensures s.bridge == Begin().bridge.(stubs := [Spi(1, true, Buffer(0), |Data(raw)|)])
    ensures 0 in s.acks && s.acks[0].raw == raw
  {
    run, s := CopiedNowhere(raw);
    hide Reached, Answers, Indexed, Begin, Data;
    ReachedIndexed(run, s);
    run, s := Own(run, s, Lock(1));
    ReachedIndexed(run, s);
    run, s := Own(run, s, SetCmd(1));
    ReachedIndexed(run, s);
    run, s := Own(run, s, SetBuffer(1));
    ReachedIndexed(run, s);
    run, s := Own(run, s, ClearAck(1));
    ReachedIndexed(run, s);
    run, s := Acks(run, s);
  }

  /**
   The buffer does not always hold the acknowledgement, though it is of the call's own command, the
   length is right and the two calls came strictly one after the other: the late answer to a call without
   a buffer finds the stub pointing nowhere, and completes the next one.
   */
  lemma UnfilledBuffer() returns (run: seq<Event>, s: State)
    ensures Reached(run, s)
    ensures 1 in s.callers && Succeeded(s.callers[1]) && s.callers[1].call == Plain(1, Buffer(0)) && s.callers[1].phase.len == 2
    ensures 0 in s.acks && Answers(s.acks[0].raw, SPI, 1) && Data(s.acks[0].raw) == [7, 7]
    ensures s.bridge.memory == map[0 := [0, 0]] && !s.bridge.overrun
  {
    var raw := Encode(SPI, 1, ACK_FLAG, [7, 7]);
    run, s := SetUpPastPointer(raw);
    hide Reached, Answers, Indexed;
    run, s := Pass(run, s, 1);
    run, s := Finish(run, s, 1);
  }

  /**
   The buffer is not always left alone: a second acknowledgement of the same command reads the pointer
   just before the first one's caller drops it, and is copied after that caller has returned zero.
   */
  lemma SecondAnswerCopiedAfterReturn() returns (run: seq<Event>, s: State, run': seq<Event>, s': State)
    ensures Reached(run, s) && Enabled(s, Unlock(0)) && Succeeded(s.callers[0]) && s.callers[0].call.ibuf == Buffer(0)
    ensures Reached(run', s') && run' == run + [Unlock(0)] + [UrbCopy]
    ensures 0 in s.bridge.memory && s.bridge.memory[0] == [1, 0]
    ensures 0 in s'.bridge.memory && s'.bridge.memory[0] == [2, 0]
  {
    run, s := SecondAnswerRead();
    hide Reached, Begin, Indexed, Copy, Data;
    run, s := Finish(run, s, 0);
    run', s' := CopiesOnLeaving(run, s);
  }

  /** The first acknowledgement is in, the second about to be copied, the caller past its wait. */
  lemma SecondAnswerRead() returns (run: seq<Event>, s: State)
    ensures Reached(run, s) && In(s, 0, Passed) && |s.bridge.stubs| == 1
    ensures s.callers[0].call.stub == 0 && s.callers[0].call.ibuf == Buffer(0) && s.callers[0].whole && s.holder == 0
    ensures s.urb.PointerRead? && s.urb.to == Buffer(0) && |s.urb.raw| >= MSG_HEADER && Data(s.urb.raw) == [2]
    ensures 0 in s.bridge.memory && s.bridge.memory[0] == [1, 0]
  {
    var first, second := Encode(SPI, 1, ACK_FLAG, [1]), Encode(SPI, 1, ACK_FLAG, [2]);
    run, s := Acknowledged(1, Buffer(0), first);
    assert s.bridge.memory[0] == [1, 0];
    hide Reached, Begin, Indexed, Copy;
    ReachedIndexed(run, s);
    run, s := Accept(run, s, second);
    ReachedIndexed(run, s);
    run, s := Reads(run, s);
  }

  lemma CopiesOnLeaving(run: seq<Event>, s: State) returns (run': seq<Event>, s': State)
    requires Reached(run, s) && Enabled(s, Unlock(0)) && s.urb.PointerRead? && s.urb.to == Buffer(0)
    requires |s.urb.raw| >= MSG_HEADER && Data(s.urb.raw) == [2]
    requires 0 in s.bridge.memory && s.bridge.memory[0] == [1, 0]
    ensures Reached(run', s') && run' == run + [Unlock(0)] + [UrbCopy]
    ensures 0 in s'.bridge.memory && s'.bridge.memory[0] == [2, 0]
  {
    ReachedIndexed(run, s);
    Go(Begin(), run, s, Unlock(0));
    var s1 := Next(s, Unlock(0));
    NextIndexed(s, Unlock(0));
    hide Leads, Begin;
    Go(Begin(), run + [Unlock(0)], s1, UrbCopy);
    run', s' := run + [Unlock(0)] + [UrbCopy], Next(s1, UrbCopy);
    assert s.bridge.memory[0][1..] == [0];
  }
}
