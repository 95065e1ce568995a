/** What holds of the USB bridge over every run, and when an acknowledgement is of the caller's own command. */
module LjcaSafety {
  import opened Bytes
  import opened Ljca
  import opened LjcaRuns

  lemma {:induction false} TraceIsRun(s: State, run: seq<Event>)
    requires Indexed(s) && IsRun(s, run)
    ensures Exec(s, run).trace == s.trace + run
    decreases |run|
  {
    hide Act, Enabled;
    if run != [] {
      NextIndexed(s, run[0]);
      TraceIsRun(Next(s, run[0]), run[1..]);
      assert s.trace + run == s.trace + [run[0]] + run[1..];
    }
  }

  lemma {:induction false} StubTypesOf(s: State, run: seq<Event>)
    requires Indexed(s) && IsRun(s, run)
    ensures |Exec(s, run).bridge.stubs| == |s.bridge.stubs|
    ensures forall i :: 0 <= i < |s.bridge.stubs| ==> Exec(s, run).bridge.stubs[i].typ == s.bridge.stubs[i].typ
    decreases |run|
  {
    hide Act, Enabled;
    if run != [] {
      NextIndexed(s, run[0]);
      TypesStay(s, run[0]);
      StubTypesOf(Next(s, run[0]), run[1..]);
    }
  }

  /**
   Safety over every interleaving. A waiting call whose message went out whole returns zero only if
   an acknowledgement of its own stub's type was checked and then delivered by the completion, the
   delivery after it cleared the flag under the mutex; and if the check, too, came after it set its
   command, the acknowledgement is of that command.
   */
  lemma AcknowledgedByOwnStub(stubs: seq<Stub>, memory: map<nat, seq<byte>>, run: seq<Event>, t: nat)
    requires IsRun(Start(stubs, memory), run)
    requires var s := Exec(Start(stubs, memory), run); t in s.callers && Succeeded(s.callers[t]) && s.callers[t].call.waitAck
    ensures var s := Exec(Start(stubs, memory), run);
            var c := s.callers[t];
            && c.call.stub < |stubs| && c.call.stub in s.acks
            && var a := s.acks[c.call.stub];
            && c.cmdAt < c.clearedAt < a.delivered < |run| && a.checked < a.delivered
            && run[c.cmdAt] == SetCmd(t) && run[c.clearedAt] == ClearAck(t)
            && run[a.checked] == UrbCheck(a.raw) && run[a.delivered] == UrbAck
            && Validated(a.raw) && IsAck(a.raw) && a.raw[0] == stubs[c.call.stub].typ
            && (c.cmdAt < a.checked ==> Answers(a.raw, stubs[c.call.stub].typ, c.call.cmd as int))
  {
    var start := Start(stubs, memory);
    InvStart(stubs, memory);
    InvRun(start, run);
    TraceIsRun(start, run);
    StubTypesOf(start, run);
    var s := Exec(start, run);
    assert start.trace + run == run;
    hide IsRun, Exec, UrbOk, MutexHeld, Start;
    var c := s.callers[t];
    assert CallerOk(s, t, c);
    assert AckOk(s, c.call.stub, s.acks[c.call.stub]);
    assert Matches(c, s.acks[c.call.stub].raw, c.call.stub, s.acks[c.call.stub].checked);
  }

  // What the listeners are told.

  /** What the messages of a run have for the listeners, in order of arrival. */
  function NoticedBy(stubs: seq<Stub>, run: seq<Event>): seq<Notice> {
    if run == [] then []
    else (if run[0].UrbCheck? then NoticedOf(stubs, run[0].raw) else []) + NoticedBy(stubs, run[1..])
  }

  lemma CheckNotices(s: State, raw: seq<byte>)
    ensures Check(s, raw).bridge.notices == s.bridge.notices + NoticedOf(s.bridge.stubs, raw)
    ensures Check(s, raw).bridge.stubs == s.bridge.stubs
  {
    DeliverNotices(s.bridge, raw);
    hide Find, NoticedOf, Notify;
    if Validated(raw) && Find(s.bridge.stubs, raw[0]) >= 0 && IsAck(raw) {
      assert NoticedOf(s.bridge.stubs, raw) == [] by {
        NoNoticeOfAck(s.bridge.stubs, raw);
      }
    }
    assert s.bridge.notices + [] == s.bridge.notices;
    NotifyKeepsStubs(s.bridge, raw);
  }

  lemma NoNoticeOfAck(stubs: seq<Stub>, raw: seq<byte>)
    requires |raw| >= MSG_HEADER && IsAck(raw)
    ensures NoticedOf(stubs, raw) == []
  {
  }

  lemma NotifyKeepsStubs(b: Bridge, raw: seq<byte>)
    ensures forall i: nat :: i < |b.stubs| && |raw| >= MSG_HEADER ==> Notify(b, i, raw).stubs == b.stubs
  {
  }

  lemma NoticesStep(s: State, e: Event)
    requires Indexed(s) && Enabled(s, e)
    ensures Next(s, e).bridge.notices == s.bridge.notices + if e.UrbCheck? then NoticedOf(s.bridge.stubs, e.raw) else []
    ensures SameListeners(Next(s, e).bridge.stubs, s.bridge.stubs)
  {
    if e.UrbCheck? {
      CheckNotices(s, e.raw);
      hide Check, NoticedOf;
    } else {
      hide Check, NoticedOf, Find, Data;
      assert s.bridge.notices + [] == s.bridge.notices;
    }
  }

  lemma {:induction false} NoticesRun(s: State, run: seq<Event>)
    requires Indexed(s) && IsRun(s, run)
    ensures Exec(s, run).bridge.notices == s.bridge.notices + NoticedBy(s.bridge.stubs, run)
    decreases |run|
  {
    hide Act, Enabled, NoticedOf, Indexed;
    if run == [] {
      assert s.bridge.notices + [] == s.bridge.notices;
    } else {
      var s1 := Next(s, run[0]);
      NextIndexed(s, run[0]);
      NoticesStep(s, run[0]);
      NoticesRun(s1, run[1..]);
      SameNoticedBy(s1.bridge.stubs, s.bridge.stubs, run[1..]);
    }
  }

  lemma {:induction false} SameNoticedBy(a: seq<Stub>, b: seq<Stub>, run: seq<Event>)
    requires SameListeners(a, b)
    ensures NoticedBy(a, run) == NoticedBy(b, run)
    decreases |run|
  {
    hide NoticedOf, SameListeners;
    if run != [] {
      if run[0].UrbCheck? {
        SameNoticed(a, b, run[0].raw);
      }
      SameNoticedBy(a, b, run[1..]);
    }
  }

  /** Over every interleaving the listeners are told exactly of the messages that are for them, in order, whatever callers do. */
  lemma NoticesExactly(stubs: seq<Stub>, memory: map<nat, seq<byte>>, run: seq<Event>)
    requires IsRun(Start(stubs, memory), run)
    ensures Exec(Start(stubs, memory), run).bridge.notices == NoticedBy(stubs, run)
  {
    NoticesRun(Start(stubs, memory), run);
    assert [] + NoticedBy(stubs, run) == NoticedBy(stubs, run);
  }

  // Which acknowledgements are of the caller's own command.

  /**
   A waiting caller sets its command while the completion is at work on an acknowledgement of another
   command for the same stub.
   */
  predicate Crosses(s: State, e: Event) {
    && e.SetCmd? && e.t in s.callers && s.callers[e.t].call.waitAck
    && !s.urb.Idle? && s.urb.stub == s.callers[e.t].call.stub
    && |s.urb.raw| >= MSG_HEADER && s.urb.raw[1] != s.callers[e.t].call.cmd
  }

  /** The last command caller `t` set, it set in a crossing. */
  ghost predicate Crossed(s: State, run: seq<Event>, t: nat, already: bool)
    requires Indexed(s) && IsRun(s, run)
    decreases |run|
  {
    if run == [] then already
    else
      NextIndexed(s, run[0]);
      Crossed(Next(s, run[0]), run[1..], t, CrossedBy(s, run[0], t, already))
  }

  predicate CrossedBy(s: State, e: Event, t: nat, already: bool) {
    if e == SetCmd(t) then Crosses(s, e) else already
  }

  lemma UrbAfter(s: State, e: Event)
    requires Indexed(s) && Enabled(s, e)
    ensures var urb := Next(s, e).urb;
            match e
            case UrbCheck(raw) =>
              urb.Idle? || (urb.Checked? && urb.at == |s.trace| && urb.raw == raw && |raw| >= MSG_HEADER
                            && urb.stub < |s.bridge.stubs| && s.bridge.stubs[urb.stub].curCmd == raw[1] as int)
            case UrbLen => urb == LenSet(s.urb.stub, s.urb.raw, s.urb.at)
            case UrbRead =>
              s.urb.stub < |s.bridge.stubs| && urb == PointerRead(s.urb.stub, s.urb.raw, s.urb.at, s.bridge.stubs[s.urb.stub].ibuf)
            case UrbCopy => urb == Copied(s.urb.stub, s.urb.raw, s.urb.at)
            case UrbAck => urb == Idle
            case _ => urb == s.urb
  {
    hide Find, Copy, Notify, IsAck, Data;
  }

  /** Memory changes only in the completion's copy. */
  lemma MemoryAfter(s: State, e: Event)
    requires Indexed(s) && Enabled(s, e)
    ensures var b, b' := s.bridge, Next(s, e).bridge;
            if e.UrbCopy? then b' == Copy(b, s.urb.to, Data(s.urb.raw))
            else b'.memory == b.memory && b'.overrun == b.overrun
  {
    hide Find, Copy, Validated, IsAck, Data;
  }

  predicate OfCommand(raw: seq<byte>, cmd: byte) {
    |raw| >= MSG_HEADER && raw[1] == cmd
  }

  /** Whatever is on its way to a waiting caller, or has come since it was armed, is of its command. */
  ghost predicate OwnFor(c: Caller, urb: Urb, acks: map<nat, Ack>) {
    c.call.waitAck ==>
      && (Commanded(c) && !urb.Idle? && urb.stub == c.call.stub ==> OfCommand(urb.raw, c.call.cmd))
      && (Cleared(c) && c.call.stub in acks && c.clearedAt < acks[c.call.stub].delivered ==>
            OfCommand(acks[c.call.stub].raw, c.call.cmd))
  }

  /** Of caller `t`, if its command was not set in a crossing. */
  ghost predicate OwnIn(s: State, t: nat, crossed: bool) {
    t in s.callers && !crossed ==> OwnFor(s.callers[t], s.urb, s.acks)
  }

  lemma OwnByOther(s: State, e: Event, t: nat)
    requires Inv(s) && Enabled(s, e) && t in s.callers && OwnFor(s.callers[t], s.urb, s.acks)
    requires IsUrb(e) || e.t != t
    ensures OwnFor(s.callers[t], Next(s, e).urb, Next(s, e).acks)
  {
    UrbAfter(s, e);
    AcksAfter(s, e);
    assert CallerOk(s, t, s.callers[t]);
    hide Act, UrbOk, AcksOk, MutexHeld, Outcome;
  }

  lemma OwnByOwn(s: State, e: Event)
    requires Indexed(s) && Enabled(s, e) && !IsUrb(e) && !e.Unlock?
    requires Stepped(s, e).call.stub in s.acks ==> s.acks[Stepped(s, e).call.stub].delivered < |s.trace|
    requires e.Enter? || (e.SetCmd? && !Crosses(s, e)) || (!e.SetCmd? && OwnFor(s.callers[e.t], s.urb, s.acks))
    ensures OwnFor(Stepped(s, e), s.urb, s.acks)
  {
  }

  lemma OwnCommandStep(s: State, e: Event, t: nat, crossed: bool)
    requires Inv(s) && OwnIn(s, t, crossed) && Enabled(s, e)
    ensures OwnIn(Next(s, e), t, CrossedBy(s, e, t, crossed))
  {
    CallersGrow(s, e);
    if t in Next(s, e).callers && !CrossedBy(s, e, t, crossed) {
      if IsUrb(e) || e.t != t {
        CallersAfter(s, e, t);
        OwnByOther(s, e, t);
      } else {
        OwnAfter(s, e);
        UrbAfter(s, e);
        AcksAfter(s, e);
        var i := Stepped(s, e).call.stub;
        assert i in s.acks ==> AckOk(s, i, s.acks[i]);
        hide Act, OwnFor, Stepped, Enabled;
        OwnByOwn(s, e);
      }
    }
  }

  lemma {:induction false} OwnRun(s: State, run: seq<Event>, t: nat, crossed: bool)
    requires Inv(s) && OwnIn(s, t, crossed) && IsRun(s, run)
    ensures OwnIn(Exec(s, run), t, Crossed(s, run, t, crossed))
    decreases |run|
  {
    hide Act, OwnIn, Enabled, CrossedBy, CallerOk, UrbOk, AcksOk, MutexHeld;
    if run != [] {
      NextIndexed(s, run[0]);
      InvStep(s, run[0]);
      OwnCommandStep(s, run[0], t, crossed);
      OwnRun(Next(s, run[0]), run[1..], t, CrossedBy(s, run[0], t, crossed));
    }
  }

  /**
   Whatever interleaves, on its own stub or others: a waiting call that succeeds, and did not itself set
   its command in a crossing, was acknowledged for its own type and its own command, by a delivery since
   it cleared the flag.
   */
  lemma AcknowledgedByOwnCommand(stubs: seq<Stub>, memory: map<nat, seq<byte>>, run: seq<Event>, t: nat)
    requires IsRun(Start(stubs, memory), run) && !Crossed(Start(stubs, memory), run, t, false)
    requires var s := Exec(Start(stubs, memory), run); t in s.callers && Succeeded(s.callers[t]) && s.callers[t].call.waitAck
    ensures var s := Exec(Start(stubs, memory), run);
            var c := s.callers[t];
            && c.call.stub < |stubs| && c.call.stub in s.acks
            && var a := s.acks[c.call.stub];
            && Answers(a.raw, stubs[c.call.stub].typ, c.call.cmd as int)
            && c.clearedAt < a.delivered < |run| && a.checked < a.delivered
            && run[c.clearedAt] == ClearAck(t) && run[a.checked] == UrbCheck(a.raw) && run[a.delivered] == UrbAck
  {
    hide Inv, IsRun, Exec, Start, Crossed, Enabled, Act;
    OwnStart(stubs, memory, t);
    AcknowledgedByOwnStub(stubs, memory, run, t);
    OwnRun(Start(stubs, memory), run, t, false);
  }

  lemma OwnStart(stubs: seq<Stub>, memory: map<nat, seq<byte>>, t: nat)
    ensures Inv(Start(stubs, memory)) && OwnIn(Start(stubs, memory), t, false)
  {
  }

  // Any crossing can be carried on to a success on the wrong command.

  /** A run and where it comes to. */
  ghost predicate Leads(s: State, run: seq<Event>, end: State) {
    Indexed(s) && IsRun(s, run) && Exec(s, run) == end && Indexed(end)
  }

  lemma LeadsNowhere(s: State)
    requires Indexed(s)
    ensures Leads(s, [], s)
  {
  }

  /** Going on from where a run ended. */
  lemma {:induction false} RunOn(s: State, run: seq<Event>, s1: State, more: seq<Event>)
    requires Indexed(s) && IsRun(s, run) && Exec(s, run) == s1
    requires Indexed(s1) && IsRun(s1, more)
    ensures IsRun(s, run + more) && Exec(s, run + more) == Exec(s1, more)
    decreases |run|
  {
    hide Next, Enabled, Indexed;
    if run == [] {
      assert run + more == more;
    } else {
      NextIndexed(s, run[0]);
      RunOn(Next(s, run[0]), run[1..], s1, more);
      assert (run + more)[1..] == run[1..] + more;
    }
  }

  /** One more step. */
  lemma Go(s: State, run: seq<Event>, s1: State, e: Event)
    requires Leads(s, run, s1) && Enabled(s1, e)
    ensures Leads(s, run + [e], Next(s1, e))
  {
    hide Act, Enabled, Indexed;
    NextIndexed(s1, e);
    assert [e][1..] == [];
    RunOn(s, run, s1, [e]);
  }

  /** What a step of caller `t`, or of the completion, leaves for the other to build on. */
  lemma CallerGoes(s: State, run: seq<Event>, s1: State, e: Event) returns (run': seq<Event>, s2: State)
    requires Leads(s, run, s1) && Enabled(s1, e) && !IsUrb(e) && !e.Enter? && !e.Unlock?
    ensures Leads(s, run', s2) && run' == run + [e]
    ensures e.t in s2.callers && s2.callers[e.t] == Stepped(s1, e) && s2.urb == s1.urb && s2.acks == s1.acks
    ensures s2.bridge.memory == s1.bridge.memory
    ensures var i := s1.callers[e.t].call.stub;
            i < |s1.bridge.stubs| && i < |s2.bridge.stubs| && s2.bridge.stubs[i].typ == s1.bridge.stubs[i].typ
            && s2.bridge.stubs[i].acked == if e.ClearAck? then false else s1.bridge.stubs[i].acked
  {
    Go(s, run, s1, e);
    run', s2 := run + [e], Next(s1, e);
    OwnAfter(s1, e);
    UrbAfter(s1, e);
    AcksAfter(s1, e);
    MemoryAfter(s1, e);
    TypesStay(s1, e);
    StubAfter(s1, e, s1.callers[e.t].call.stub);
    hide Act, IsRun, Exec;
  }

  lemma UrbGoes(s: State, run: seq<Event>, s1: State, e: Event, t: nat) returns (run': seq<Event>, s2: State)
    requires Leads(s, run, s1) && Enabled(s1, e) && (e.UrbLen? || e.UrbRead? || e.UrbCopy? || e.UrbAck?) && t in s1.callers
    ensures Leads(s, run', s2) && run' == run + [e]
    ensures t in s2.callers && s2.callers[t] == s1.callers[t]
    ensures e.UrbLen? ==> s2.urb == LenSet(s1.urb.stub, s1.urb.raw, s1.urb.at)
    ensures e.UrbRead? ==> s2.urb.PointerRead? && s2.urb.stub == s1.urb.stub && s2.urb.raw == s1.urb.raw
    ensures e.UrbCopy? ==> s2.urb == Copied(s1.urb.stub, s1.urb.raw, s1.urb.at)
    ensures var i := s1.urb.stub;
            i < |s1.bridge.stubs| && i < |s2.bridge.stubs| && s2.bridge.stubs[i].typ == s1.bridge.stubs[i].typ
            && s2.bridge.stubs[i].acked == (s1.bridge.stubs[i].acked || e.UrbAck?)
    ensures e.UrbAck? ==> s1.urb.stub in s2.acks && s2.acks[s1.urb.stub].raw == s1.urb.raw
    ensures |s1.urb.raw| >= MSG_HEADER
    ensures s2.bridge.memory == if e.UrbCopy? then Copy(s1.bridge, s1.urb.to, Data(s1.urb.raw)).memory else s1.bridge.memory
  {
    Go(s, run, s1, e);
    run', s2 := run + [e], Next(s1, e);
    CallersAfter(s1, e, t);
    UrbAfter(s1, e);
    AcksAfter(s1, e);
    MemoryAfter(s1, e);
    TypesStay(s1, e);
    StubAfter(s1, e, s1.urb.stub);
    hide Act, IsRun, Exec, Copy, Data;
  }

  function StepsLeft(urb: Urb): nat {
    match urb
    case Idle => 0
    case Checked(_, _, _) => 4
    case LenSet(_, _, _) => 3
    case PointerRead(_, _, _, _) => 2
    case Copied(_, _, _) => 1
  }

  /** The completion, wherever it is, runs to its end. */
  lemma {:induction false} Completes(s: State, run: seq<Event>, s1: State, t: nat) returns (run': seq<Event>, s2: State)
    requires Leads(s, run, s1) && !s1.urb.Idle? && t in s1.callers
    ensures Leads(s, run', s2) && run <= run'
    ensures t in s2.callers && s2.callers[t] == s1.callers[t]
    ensures var i := s1.urb.stub;
            && i < |s1.bridge.stubs| && i < |s2.bridge.stubs| && s2.bridge.stubs[i].typ == s1.bridge.stubs[i].typ
            && s2.bridge.stubs[i].acked && i in s2.acks && s2.acks[i].raw == s1.urb.raw
    decreases StepsLeft(s1.urb)
  {
    hide Leads, Stepped;
    if s1.urb.Copied? {
      run', s2 := UrbGoes(s, run, s1, UrbAck, t);
    } else {
      run', s2 := UrbGoes(s, run, s1, if s1.urb.Checked? then UrbLen else if s1.urb.LenSet? then UrbRead else UrbCopy, t);
      run', s2 := Completes(s, run', s2, t);
    }
  }

  /** From the command being set to the flag being cleared. */
  lemma Arms(s: State, t: nat) returns (run: seq<Event>, s': State)
    requires Indexed(s) && Enabled(s, SetCmd(t))
    ensures Leads(s, run, s') && [SetCmd(t)] <= run
    ensures In(s', t, Armed) && s'.callers[t].call == s.callers[t].call && s'.urb == s.urb
    ensures var i := s.callers[t].call.stub;
            i < |s.bridge.stubs| && i < |s'.bridge.stubs| && s'.bridge.stubs[i].typ == s.bridge.stubs[i].typ
  {
    LeadsNowhere(s);
    hide Leads;
    run, s' := CallerGoes(s, [], s, SetCmd(t));
    run, s' := CallerGoes(s, run, s', SetBuffer(t));
    run, s' := CallerGoes(s, run, s', ClearAck(t));
  }

  /** From the armed and acknowledged stub to the return. */
  lemma Succeeds(s: State, run: seq<Event>, s1: State, t: nat) returns (run': seq<Event>, s2: State)
    requires Leads(s, run, s1) && In(s1, t, Armed) && s1.callers[t].call.waitAck
    requires s1.callers[t].call.stub < |s1.bridge.stubs| && s1.bridge.stubs[s1.callers[t].call.stub].acked
    ensures Leads(s, run', s2) && run <= run'
    ensures t in s2.callers && Succeeded(s2.callers[t]) && s2.callers[t].call == s1.callers[t].call && s2.acks == s1.acks
    ensures s2.bridge.memory == s1.bridge.memory
    ensures var i := s1.callers[t].call.stub; i < |s2.bridge.stubs| && s2.bridge.stubs[i].typ == s1.bridge.stubs[i].typ
  {
    hide Leads;
    run', s2 := CallerGoes(s, run, s1, SendOver(t, true, 0));
    run', s2 := CallerGoes(s, run', s2, WaitOver(t, true));
    run', s2 := CallerGoes(s, run', s2, TakeLen(t));
    run', s2 := CallerGoes(s, run', s2, DropBuffer(t));
    run', s2 := CallerGoes(s, run', s2, ZeroLen(t));
  }

  /**
   The other half: from any state in which a crossing can happen, it can be carried on to that very
   call's return of zero on an acknowledgement that is not of its command.
   */
  lemma CrossingCompletesWrongCommand(s: State, t: nat) returns (run: seq<Event>, s': State)
    requires Indexed(s) && Enabled(s, SetCmd(t)) && Crosses(s, SetCmd(t))
    ensures Leads(s, run, s') && [SetCmd(t)] <= run
    ensures t in s'.callers && Succeeded(s'.callers[t]) && s'.callers[t].call == s.callers[t].call
    ensures var c := s'.callers[t].call;
            c.stub < |s'.bridge.stubs| && c.stub in s'.acks && s'.acks[c.stub].raw == s.urb.raw
            && !Answers(s'.acks[c.stub].raw, s'.bridge.stubs[c.stub].typ, c.cmd as int)
  {
    hide Leads, Indexed, Stepped;
    var s1, s2;
    run, s1 := Arms(s, t);
    run, s2 := Completes(s, run, s1, t);
    run, s' := Succeeds(s, run, s2, t);
  }
}
