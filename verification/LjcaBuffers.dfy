/** What becomes of a caller's buffer and length: what may still touch them after the return, and what they hold. */
module LjcaBuffers {
  import opened Bytes
  import opened Ljca
  import opened LjcaRuns
  import opened LjcaSafety

  /** A call that has yet to hand its buffer to the stub. */
  predicate MaySet(c: Caller) {
    c.phase == Entered || c.phase == Locked || c.phase == CmdSet
  }

  lemma CallsAfter(s: State, e: Event)
    requires Indexed(s) && Enabled(s, e)
    ensures forall t :: t in Next(s, e).callers ==>
              || (e.Enter? && e.t == t && Next(s, e).callers[t].call == e.call)
              || (t in s.callers && Next(s, e).callers[t].call == s.callers[t].call
                  && (MaySet(Next(s, e).callers[t]) ==> MaySet(s.callers[t])))
  {
    CallersGrow(s, e);
    forall t | t in Next(s, e).callers && !(e.Enter? && e.t == t)
      ensures t in s.callers && Next(s, e).callers[t].call == s.callers[t].call
      ensures MaySet(Next(s, e).callers[t]) ==> MaySet(s.callers[t])
    {
      if IsUrb(e) || e.t != t {
        CallersAfter(s, e, t);
      } else {
        OwnAfter(s, e);
      }
      hide Act;
    }
    if e.Enter? {
      OwnAfter(s, e);
    }
    hide Act;
  }

  predicate Carries(e: Event, id: nat) {
    e.Enter? && e.call.ibuf == Buffer(id)
  }

  /** The completion has read the pointer to the buffer and not yet copied. */
  predicate PointsAt(urb: Urb, id: nat) {
    urb.PointerRead? && urb.to == Buffer(id)
  }

  predicate Writes(s: State, e: Event, id: nat) {
    e.UrbCopy? && PointsAt(s.urb, id)
  }

  /** No stub points at the buffer and no call under way is still to hand it over. */
  ghost predicate LetGo(s: State, id: nat) {
    && Unused(s.bridge, id)
    && forall t :: t in s.callers && MaySet(s.callers[t]) ==> s.callers[t].call.ibuf != Buffer(id)
  }

  lemma PointersAfter(s: State, e: Event)
    requires Indexed(s) && Enabled(s, e)
    ensures |Next(s, e).bridge.stubs| == |s.bridge.stubs|
    ensures forall j :: 0 <= j < |s.bridge.stubs| ==>
              Next(s, e).bridge.stubs[j].ibuf ==
                if e.SetBuffer? && s.callers[e.t].call.stub == j then s.callers[e.t].call.ibuf
                else if e.DropBuffer? && s.callers[e.t].call.stub == j then Null
                else s.bridge.stubs[j].ibuf
  {
    StubsStay(s, e);
    forall j | 0 <= j < |s.bridge.stubs|
      ensures Next(s, e).bridge.stubs[j].ibuf ==
                if e.SetBuffer? && s.callers[e.t].call.stub == j then s.callers[e.t].call.ibuf
                else if e.DropBuffer? && s.callers[e.t].call.stub == j then Null
                else s.bridge.stubs[j].ibuf
    {
      StubAfter(s, e, j);
      hide Act;
    }
    hide Act;
  }

  lemma LetGoStep(s: State, e: Event, id: nat)
    requires Indexed(s) && Enabled(s, e) && LetGo(s, id) && id in s.bridge.memory && !Carries(e, id)
    ensures LetGo(Next(s, e), id) && id in Next(s, e).bridge.memory
    ensures PointsAt(Next(s, e).urb, id) ==> Next(s, e).urb == s.urb
    ensures !Writes(s, e, id) ==> Next(s, e).bridge.memory[id] == s.bridge.memory[id]
  {
    CallsAfter(s, e);
    MemoryAfter(s, e);
    PointersAfter(s, e);
    UrbAfter(s, e);
    hide Act;
  }

  ghost predicate NoneCarries(run: seq<Event>, id: nat) {
    forall k :: 0 <= k < |run| ==> !Carries(run[k], id)
  }

  /** In this run only a completion in just this state ever writes the buffer. */
  ghost predicate WrittenOnlyBy(s: State, run: seq<Event>, id: nat, urb: Urb)
    requires Indexed(s) && IsRun(s, run)
    decreases |run|
  {
    run != [] ==>
      && (Writes(s, run[0], id) ==> s.urb == urb)
      && (NextIndexed(s, run[0]); WrittenOnlyBy(Next(s, run[0]), run[1..], id, urb))
  }

  ghost predicate NeverWritten(s: State, run: seq<Event>, id: nat)
    requires Indexed(s) && IsRun(s, run)
    decreases |run|
  {
    run != [] ==> !Writes(s, run[0], id) && (NextIndexed(s, run[0]); NeverWritten(Next(s, run[0]), run[1..], id))
  }

  /**
   Once a buffer is let go, until it is handed in again: no acknowledgement writes it but the one whose
   completion had read the pointer by then, if any.
   */
  lemma {:induction false} OnlyInFlightWrites(s: State, run: seq<Event>, id: nat, urb: Urb)
    requires Indexed(s) && IsRun(s, run) && LetGo(s, id) && id in s.bridge.memory && NoneCarries(run, id)
    requires PointsAt(s.urb, id) ==> s.urb == urb
    ensures WrittenOnlyBy(s, run, id, urb)
    decreases |run|
  {
    hide Act, Enabled, LetGo, Indexed, PointsAt;
    if run != [] {
      NextIndexed(s, run[0]);
      LetGoStep(s, run[0], id);
      assert Writes(s, run[0], id) ==> PointsAt(s.urb, id);
      OnlyInFlightWrites(Next(s, run[0]), run[1..], id, urb);
    }
  }

  lemma {:induction false} LetGoRun(s: State, run: seq<Event>, id: nat)
    requires Indexed(s) && IsRun(s, run) && LetGo(s, id) && id in s.bridge.memory && NoneCarries(run, id)
    requires !PointsAt(s.urb, id)
    ensures NeverWritten(s, run, id)
    ensures id in Exec(s, run).bridge.memory && Exec(s, run).bridge.memory[id] == s.bridge.memory[id]
    decreases |run|
  {
    hide Act, Enabled, LetGo, Indexed, PointsAt;
    if run != [] {
      NextIndexed(s, run[0]);
      LetGoStep(s, run[0], id);
      LetGoRun(Next(s, run[0]), run[1..], id);
    }
  }

  /** And that one's copy is still to come: it can be the very next step. */
  lemma InFlightWrites(s: State, id: nat)
    requires Indexed(s) && PointsAt(s.urb, id) && id in s.bridge.memory
    ensures IsRun(s, [UrbCopy]) && NoneCarries([UrbCopy], id) && !NeverWritten(s, [UrbCopy], id)
    ensures var b := Exec(s, [UrbCopy]).bridge;
            if |Data(s.urb.raw)| <= |s.bridge.memory[id]| then
              b == s.bridge.(memory := s.bridge.memory[id := Data(s.urb.raw) + s.bridge.memory[id][|Data(s.urb.raw)|..]])
            else b.overrun
  {
    NextIndexed(s, UrbCopy);
    assert [UrbCopy][1..] == [];
  }

  /** The buffer `id` is used for stub `i` alone. */
  ghost predicate Owned(s: State, id: nat, i: nat) {
    && (forall j :: 0 <= j < |s.bridge.stubs| && s.bridge.stubs[j].ibuf == Buffer(id) ==> j == i)
    && (forall t :: t in s.callers && s.callers[t].call.ibuf == Buffer(id) ==> s.callers[t].call.stub == i)
    && (PointsAt(s.urb, id) ==> s.urb.stub == i)
  }

  predicate OwnStub(e: Event, id: nat, i: nat) {
    Carries(e, id) ==> e.call.stub == i
  }

  lemma OwnedStep(s: State, e: Event, id: nat, i: nat)
    requires Indexed(s) && Enabled(s, e) && Owned(s, id, i) && OwnStub(e, id, i)
    ensures Owned(Next(s, e), id, i)
  {
    CallsAfter(s, e);
    PointersAfter(s, e);
    UrbAfter(s, e);
    hide Act;
  }

  lemma {:induction false} OwnedRun(s: State, run: seq<Event>, id: nat, i: nat)
    requires Indexed(s) && IsRun(s, run) && Owned(s, id, i)
    requires forall k :: 0 <= k < |run| ==> OwnStub(run[k], id, i)
    ensures Owned(Exec(s, run), id, i)
    decreases |run|
  {
    hide Act, Enabled, Owned, Indexed;
    if run != [] {
      NextIndexed(s, run[0]);
      OwnedStep(s, run[0], id, i);
      OwnedRun(Next(s, run[0]), run[1..], id, i);
    }
  }

  /** Call `t` has given its buffer up, on its way to returning zero, and nobody else uses it. */
  ghost predicate Released(s: State, t: nat, id: nat, i: nat) {
    && t in s.callers && (s.callers[t].phase.Dropped? || Succeeded(s.callers[t]))
    && s.callers[t].call.stub == i && s.callers[t].call.ibuf == Buffer(id)
    && forall u :: u in s.callers && u != t ==> s.callers[u].call.ibuf != Buffer(id)
  }

  /** From now on nothing writes the buffer, however the run goes on, until it is handed in again. */
  ghost predicate LeftAlone(s: State, id: nat)
    requires Indexed(s)
  {
    forall later: seq<Event> :: IsRun(s, later) && NoneCarries(later, id) ==> NeverWritten(s, later, id)
  }

  /**
   After a call has given its buffer up, on its way to returning zero or back, the buffer is
   left alone iff no completion had by then read the stub's pointer without having copied. In any case
   no completion but that one ever writes it, in particular none that begins later.
   */
  lemma ReleasedBufferExactly(stubs: seq<Stub>, memory: map<nat, seq<byte>>, run: seq<Event>, t: nat, id: nat, i: nat)
    requires forall j :: 0 <= j < |stubs| ==> stubs[j].ibuf == Null
    requires IsRun(Start(stubs, memory), run)
    requires forall k :: 0 <= k < |run| ==> OwnStub(run[k], id, i)
    requires var s := Exec(Start(stubs, memory), run); Released(s, t, id, i) && id in s.bridge.memory
    ensures var s := Exec(Start(stubs, memory), run);
            && Indexed(s)
            && (LeftAlone(s, id) <==> !PointsAt(s.urb, id))
            && forall later: seq<Event> :: IsRun(s, later) && NoneCarries(later, id) ==>
                 && WrittenOnlyBy(s, later, id, s.urb)
                 && (!PointsAt(s.urb, id) ==>
                       id in Exec(s, later).bridge.memory && Exec(s, later).bridge.memory[id] == s.bridge.memory[id])
  {
    ReleasedLetsGo(stubs, memory, run, t, id, i);
    var s := Exec(Start(stubs, memory), run);
    hide Released, LetGo, OwnStub, IsRun, Exec, Start, Indexed, PointsAt, WrittenOnlyBy, NeverWritten, NoneCarries;
    forall later: seq<Event> | IsRun(s, later) && NoneCarries(later, id)
      ensures WrittenOnlyBy(s, later, id, s.urb)
      ensures !PointsAt(s.urb, id) ==> NeverWritten(s, later, id)
      ensures !PointsAt(s.urb, id) ==>
                id in Exec(s, later).bridge.memory && Exec(s, later).bridge.memory[id] == s.bridge.memory[id]
    {
      OnlyInFlightWrites(s, later, id, s.urb);
      if !PointsAt(s.urb, id) {
        LetGoRun(s, later, id);
      }
    }
    if PointsAt(s.urb, id) {
      InFlightWrites(s, id);
    }
  }

  lemma ReleasedLetsGo(stubs: seq<Stub>, memory: map<nat, seq<byte>>, run: seq<Event>, t: nat, id: nat, i: nat)
    requires forall j :: 0 <= j < |stubs| ==> stubs[j].ibuf == Null
    requires IsRun(Start(stubs, memory), run)
    requires forall k :: 0 <= k < |run| ==> OwnStub(run[k], id, i)
    requires Released(Exec(Start(stubs, memory), run), t, id, i)
    ensures Indexed(Exec(Start(stubs, memory), run)) && LetGo(Exec(Start(stubs, memory), run), id)
  {
    OwnedStart(stubs, memory, id, i);
    InvStart(stubs, memory);
    hide Inv, Owned, Released, LetGo, OwnStub, IsRun, Exec, Start;
    InvRun(Start(stubs, memory), run);
    OwnedRun(Start(stubs, memory), run, id, i);
    LetsGo(Exec(Start(stubs, memory), run), t, id, i);
  }

  lemma OwnedStart(stubs: seq<Stub>, memory: map<nat, seq<byte>>, id: nat, i: nat)
    requires forall j :: 0 <= j < |stubs| ==> stubs[j].ibuf == Null
    ensures Owned(Start(stubs, memory), id, i)
  {
  }

  lemma LetsGo(s: State, t: nat, id: nat, i: nat)
    requires Inv(s) && Owned(s, id, i) && Released(s, t, id, i)
    ensures Indexed(s) && LetGo(s, id)
  {
    assert CallerOk(s, t, s.callers[t]);
    assert s.bridge.stubs[i].ibuf == Null;
    hide Inv, CallerOk, Fits;
  }

  // The length a call takes over.

  /** The completion has written the length of stub `i`, not yet its flag. */
  predicate HalfDone(urb: Urb, i: nat) {
    (urb.LenSet? || urb.PointerRead? || urb.Copied?) && urb.stub == i
  }

  /** A call zeroes the stub's length: one at the door, or one that has taken its result. */
  predicate Zeroes(s: State, e: Event, i: nat)
    requires Enabled(s, e)
  {
    (e.Enter? && e.call.stub == i) || (e.ZeroLen? && s.callers[e.t].call.stub == i)
  }

  /** The completion writes it. */
  predicate Measures(s: State, e: Event, i: nat)
    requires Enabled(s, e)
  {
    e.UrbLen? && s.urb.stub == i
  }

  predicate ZeroedBy(s: State, e: Event, i: nat, already: bool)
    requires Enabled(s, e)
  {
    Zeroes(s, e, i) || (already && !Measures(s, e, i))
  }

  /** A call has zeroed the stub's length since a completion last wrote it. */
  ghost predicate Zeroed(s: State, run: seq<Event>, i: nat, already: bool)
    requires Indexed(s) && IsRun(s, run)
    decreases |run|
  {
    if run == [] then already
    else
      NextIndexed(s, run[0]);
      Zeroed(Next(s, run[0]), run[1..], i, ZeroedBy(s, run[0], i, already))
  }

  lemma LenAfter(s: State, e: Event, i: nat)
    requires Indexed(s) && Enabled(s, e) && i < |s.bridge.stubs|
    ensures i < |Next(s, e).bridge.stubs|
    ensures Next(s, e).bridge.stubs[i].ibufLen ==
              if Zeroes(s, e, i) then 0
              else if Measures(s, e, i) then |Data(s.urb.raw)|
              else s.bridge.stubs[i].ibufLen
  {
    hide Find, Copy, Notify, Validated, IsAck, Data;
  }

  /** The length is zero if zeroed since, else that of the message being acknowledged, or last acknowledged. */
  ghost predicate LengthIs(s: State, i: nat, zeroed: bool)
    requires Indexed(s) && i < |s.bridge.stubs|
  {
    var len := s.bridge.stubs[i].ibufLen;
    && (HalfDone(s.urb, i) ==> len == if zeroed then 0 else |Data(s.urb.raw)|)
    && (!HalfDone(s.urb, i) && i in s.acks ==>
          |s.acks[i].raw| >= MSG_HEADER && len == if zeroed then 0 else |Data(s.acks[i].raw)|)
  }

  lemma LengthStep(s: State, e: Event, i: nat, zeroed: bool)
    requires Indexed(s) && Enabled(s, e) && i < |s.bridge.stubs| && LengthIs(s, i, zeroed)
    ensures Indexed(Next(s, e)) && i < |Next(s, e).bridge.stubs| && LengthIs(Next(s, e), i, ZeroedBy(s, e, i, zeroed))
  {
    NextIndexed(s, e);
    LenAfter(s, e, i);
    UrbAfter(s, e);
    AcksAfter(s, e);
    hide Act, Data;
  }

  lemma {:induction false} LengthRun(s: State, run: seq<Event>, i: nat, zeroed: bool)
    requires Indexed(s) && IsRun(s, run) && i < |s.bridge.stubs| && LengthIs(s, i, zeroed)
    ensures Indexed(Exec(s, run)) && i < |Exec(s, run).bridge.stubs| && LengthIs(Exec(s, run), i, Zeroed(s, run, i, zeroed))
    decreases |run|
  {
    hide Act, Enabled, LengthIs, Indexed, ZeroedBy;
    if run != [] {
      NextIndexed(s, run[0]);
      LengthStep(s, run[0], i, zeroed);
      LengthRun(Next(s, run[0]), run[1..], i, ZeroedBy(s, run[0], i, zeroed));
    }
  }

  // What a call's buffer holds.

  /** The completion has read the pointer of stub `i`, not yet written its flag. */
  predicate PastPointer(urb: Urb, i: nat) {
    (urb.PointerRead? || urb.Copied?) && urb.stub == i
  }

  /** Where a completion for the stub last found it pointing, and what the caller's buffer held then. */
  datatype Reading = Reading(to: Pointer, held: seq<byte>)

  function ReadBy(s: State, e: Event, id: nat, i: nat, r: Reading): Reading
    requires Indexed(s) && Enabled(s, e)
  {
    if e.UrbRead? && s.urb.stub == i then
      Reading(s.bridge.stubs[i].ibuf, if id in s.bridge.memory then s.bridge.memory[id] else [])
    else r
  }

  /** The last such reading of a run. */
  ghost function LastReading(s: State, run: seq<Event>, id: nat, i: nat, r: Reading): Reading
    requires Indexed(s) && IsRun(s, run)
    decreases |run|
  {
    if run == [] then r
    else
      NextIndexed(s, run[0]);
      LastReading(Next(s, run[0]), run[1..], id, i, ReadBy(s, run[0], id, i, r))
  }

  /** The buffer holds what it held at the reading, overlaid with the message if it was found there. */
  predicate Placed(now: seq<byte>, r: Reading, raw: seq<byte>, id: nat) {
    |raw| >= MSG_HEADER
    && if r.to == Buffer(id) then |Data(raw)| <= |r.held| && now == Data(raw) + r.held[|Data(raw)|..] else now == r.held
  }

  ghost predicate BufferIs(s: State, id: nat, i: nat, r: Reading)
    requires Indexed(s)
  {
    && id in s.bridge.memory
    && (s.bridge.overrun ||
        var now := s.bridge.memory[id];
        && (PastPointer(s.urb, i) ==> if s.urb.Copied? then Placed(now, r, s.urb.raw, id) else s.urb.to == r.to && now == r.held)
        && (!PastPointer(s.urb, i) && i in s.acks ==> Placed(now, r, s.acks[i].raw, id)))
  }

  lemma CopyPlaces(b: Bridge, to: Pointer, raw: seq<byte>, id: nat)
    requires |raw| >= MSG_HEADER && id in b.memory
    ensures var b' := Copy(b, to, Data(raw));
            id in b'.memory && (b.overrun ==> b'.overrun) && (b'.overrun || Placed(b'.memory[id], Reading(to, b.memory[id]), raw, id))
  {
  }

  lemma BufferByCopy(s: State, id: nat, i: nat, r: Reading)
    requires Indexed(s) && Enabled(s, UrbCopy) && i < |s.bridge.stubs| && Owned(s, id, i) && BufferIs(s, id, i, r)
    ensures Indexed(Next(s, UrbCopy)) && BufferIs(Next(s, UrbCopy), id, i, r)
  {
    NextIndexed(s, UrbCopy);
    UrbAfter(s, UrbCopy);
    AcksAfter(s, UrbCopy);
    MemoryAfter(s, UrbCopy);
    CopyPlaces(s.bridge, s.urb.to, s.urb.raw, id);
    hide Act, Copy, Data;
  }

  lemma BufferStep(s: State, e: Event, id: nat, i: nat, r: Reading)
    requires Indexed(s) && Enabled(s, e) && i < |s.bridge.stubs| && Owned(s, id, i) && BufferIs(s, id, i, r)
    ensures Indexed(Next(s, e)) && BufferIs(Next(s, e), id, i, ReadBy(s, e, id, i, r))
  {
    if e.UrbCopy? {
      BufferByCopy(s, id, i, r);
    } else {
      NextIndexed(s, e);
      UrbAfter(s, e);
      AcksAfter(s, e);
      MemoryAfter(s, e);
      hide Act, Placed;
    }
  }

  lemma {:induction false} BufferRun(s: State, run: seq<Event>, id: nat, i: nat, r: Reading)
    requires Indexed(s) && IsRun(s, run) && i < |s.bridge.stubs| && Owned(s, id, i) && BufferIs(s, id, i, r)
    requires forall k :: 0 <= k < |run| ==> OwnStub(run[k], id, i)
    ensures Indexed(Exec(s, run)) && BufferIs(Exec(s, run), id, i, LastReading(s, run, id, i, r))
    decreases |run|
  {
    hide Act, Enabled, Owned, BufferIs, Indexed, ReadBy, OwnStub;
    if run != [] {
      NextIndexed(s, run[0]);
      StubsStay(s, run[0]);
      OwnedStep(s, run[0], id, i);
      BufferStep(s, run[0], id, i, r);
      BufferRun(Next(s, run[0]), run[1..], id, i, ReadBy(s, run[0], id, i, r));
    }
  }

  // What a successful call hands back.

  /** At the moment a waiting call takes its length, its stub has been acknowledged since the call cleared the flag. */
  lemma TakesAnswer(s: State, t: nat)
    requires Inv(s) && Enabled(s, TakeLen(t)) && s.callers[t].call.waitAck
    ensures var c := s.callers[t];
            && c.call.stub < |s.bridge.stubs| && c.call.stub in s.acks
            && var a := s.acks[c.call.stub];
            && Validated(a.raw) && IsAck(a.raw) && a.raw[0] == s.bridge.stubs[c.call.stub].typ
            && Cleared(c) && c.clearedAt < a.delivered
  {
    var c := s.callers[t];
    assert CallerOk(s, t, c);
    assert AckOk(s, c.call.stub, s.acks[c.call.stub]);
    hide UrbOk, AcksOk, MutexHeld, CallerOk, Matches;
  }

  /**
   Over every interleaving, the length a waiting call takes: zero if another call on the stub has zeroed
   it since a completion last wrote it, and otherwise that of the message it wrote it for, which is the
   call's acknowledgement unless a further one is half done.
   */
  lemma LengthExactly(stubs: seq<Stub>, memory: map<nat, seq<byte>>, run: seq<Event>, t: nat)
    requires IsRun(Start(stubs, memory), run)
    requires var s := Exec(Start(stubs, memory), run); Enabled(s, TakeLen(t)) && s.callers[t].call.waitAck
    ensures var s := Exec(Start(stubs, memory), run);
            var i := s.callers[t].call.stub;
            && Indexed(s) && i in s.acks
            && var latest := if HalfDone(s.urb, i) then s.urb.raw else s.acks[i].raw;
            && |latest| >= MSG_HEADER
            && Next(s, TakeLen(t)).callers[t].phase ==
                 LenRead(if Zeroed(Start(stubs, memory), run, i, false) then 0 else |Data(latest)|)
  {
    var start := Start(stubs, memory);
    var s := Exec(start, run);
    var i := s.callers[t].call.stub;
    hide Inv, IsRun, Exec, Start, Zeroed, LengthIs, Next, Enabled;
    LengthStart(stubs, memory, i);
    InvRun(start, run);
    StubTypesOf(start, run);
    TakesAnswer(s, t);
    LengthRun(start, run, i, false);
    TakesLength(s, t, Zeroed(start, run, i, false));
  }

  lemma LengthStart(stubs: seq<Stub>, memory: map<nat, seq<byte>>, i: nat)
    ensures var s := Start(stubs, memory);
            Inv(s) && |s.bridge.stubs| == |stubs| && (i < |stubs| ==> LengthIs(s, i, false))
  {
  }

  lemma TakesLength(s: State, t: nat, zeroed: bool)
    requires Indexed(s) && Enabled(s, TakeLen(t)) && s.callers[t].call.stub in s.acks && LengthIs(s, s.callers[t].call.stub, zeroed)
    ensures var i := s.callers[t].call.stub;
            var latest := if HalfDone(s.urb, i) then s.urb.raw else s.acks[i].raw;
            |latest| >= MSG_HEADER && Next(s, TakeLen(t)).callers[t].phase == LenRead(if zeroed then 0 else |Data(latest)|)
  {
    hide Data;
  }

  /** The length taken is the length returned, whatever happens in between. */
  lemma {:induction false} TakenIsReturned(s: State, run: seq<Event>, t: nat, len: nat)
    requires Indexed(s) && IsRun(s, run) && Unlock(t) !in run
    requires t in s.callers && s.callers[t].phase in {LenRead(len), Dropped(len), Leaving(0, len)}
    ensures var end := Exec(s, run); t in end.callers && end.callers[t].phase in {LenRead(len), Dropped(len), Leaving(0, len)}
    decreases |run|
  {
    if run != [] {
      var e := run[0];
      NextIndexed(s, e);
      if IsUrb(e) || e.t != t {
        CallersAfter(s, e, t);
      } else {
        OwnAfter(s, e);
      }
      hide Act, Indexed;
      TakenIsReturned(Next(s, e), run[1..], t, len);
    }
  }

  /**
   And a further call can always zero it: with the acknowledgement in and not yet taken over, one more
   caller at the door makes the call return zero with no length.
   */
  lemma EnterClearsLength(s: State, t: nat, u: nat, call: Call) returns (run: seq<Event>, s': State)
    requires Indexed(s) && In(s, t, Passed) && s.callers[t].whole
    requires u !in s.callers && call.stub == s.callers[t].call.stub
    ensures run == [Enter(u, call), TakeLen(t), DropBuffer(t), ZeroLen(t)] && Leads(s, run, s')
    ensures t in s'.callers && Succeeded(s'.callers[t]) && s'.callers[t].call == s.callers[t].call
    ensures s'.callers[t].phase == Leaving(0, 0) && s'.acks == s.acks
  {
    hide Leads, Indexed;
    run, s' := EntersAndZeroes(s, t, u, call);
    run, s' := TakesOver(s, run, s', t);
  }

  /** The last three steps before the mutex is given back. */
  lemma TakesOver(s: State, run: seq<Event>, s1: State, t: nat) returns (run': seq<Event>, s2: State)
    requires Leads(s, run, s1) && In(s1, t, Passed) && s1.callers[t].call.stub < |s1.bridge.stubs|
    ensures Leads(s, run', s2) && run' == run + [TakeLen(t)] + [DropBuffer(t)] + [ZeroLen(t)]
    ensures t in s2.callers && s2.acks == s1.acks
    ensures s2.callers[t] == s1.callers[t].(phase := Leaving(0, s1.bridge.stubs[s1.callers[t].call.stub].ibufLen))
  {
    hide Leads, Indexed;
    run', s2 := CallerGoes(s, run, s1, TakeLen(t));
    run', s2 := CallerGoes(s, run', s2, DropBuffer(t));
    run', s2 := CallerGoes(s, run', s2, ZeroLen(t));
  }

  lemma EntersAndZeroes(s: State, t: nat, u: nat, call: Call) returns (run: seq<Event>, s': State)
    requires Indexed(s) && t in s.callers && u !in s.callers && call.stub == s.callers[t].call.stub
    ensures run == [Enter(u, call)] && Leads(s, run, s')
    ensures t in s'.callers && s'.callers[t] == s.callers[t] && s'.acks == s.acks
    ensures call.stub < |s'.bridge.stubs| && s'.bridge.stubs[call.stub].ibufLen == 0
  {
    var e := Enter(u, call);
    LeadsNowhere(s);
    assert Enabled(s, e);
    hide Leads, Act;
    Go(s, [], s, e);
    run, s' := [] + [e], Next(s, e);
    CallersAfter(s, e, t);
    LenAfter(s, e, call.stub);
    AcksAfter(s, e);
  }

  /**
   What waiting call `t`, about to take its length, hands back of the acknowledgement that completed it.
   That is of the stub's type, delivered since the call cleared the flag, and of the call's command unless
   that was set in a crossing. The length is the acknowledgement's exactly if nobody has zeroed it since.
   The buffer holds what it held when the completion read the stub's pointer, overlaid with the
   acknowledgement if the pointer was this buffer's, and so begins with it exactly then, or if it did before.
   */
  ghost predicate HandedBack(s: State, t: nat, id: nat, i: nat, zeroed: bool, r: Reading, crossed: bool) {
    && t in s.callers && i < |s.bridge.stubs| && i in s.acks && id in s.bridge.memory
    && var a := s.acks[i];
    && Validated(a.raw) && IsAck(a.raw) && a.raw[0] == s.bridge.stubs[i].typ && s.callers[t].clearedAt < a.delivered
    && (!crossed ==> Answers(a.raw, s.bridge.stubs[i].typ, s.callers[t].call.cmd as int))
    && (s.bridge.stubs[i].ibufLen == |Data(a.raw)| <==> !zeroed || Data(a.raw) == [])
    && (!s.bridge.overrun ==>
          && Placed(s.bridge.memory[id], r, a.raw, id)
          && (Data(a.raw) <= s.bridge.memory[id] <==> r.to == Buffer(id) || Data(a.raw) <= r.held))
  }

  /**
   Over every interleaving in which the buffer is used on one stub only, for every waiting call that has
   been completed, whenever no further acknowledgement is half done.
   */
  lemma ResultExactly(stubs: seq<Stub>, memory: map<nat, seq<byte>>, run: seq<Event>, t: nat, id: nat, i: nat)
    requires id in memory && forall j :: 0 <= j < |stubs| ==> stubs[j].ibuf == Null
    requires IsRun(Start(stubs, memory), run) && forall k :: 0 <= k < |run| ==> OwnStub(run[k], id, i)
    requires var s := Exec(Start(stubs, memory), run);
             && Enabled(s, TakeLen(t)) && !HalfDone(s.urb, i)
             && s.callers[t].call.waitAck && s.callers[t].call.stub == i && s.callers[t].call.ibuf == Buffer(id)
    ensures var start := Start(stubs, memory);
            HandedBack(Exec(start, run), t, id, i, Zeroed(start, run, i, false),
                       LastReading(start, run, id, i, Reading(Null, [])), Crossed(start, run, t, false))
  {
    hide Inv, IsRun, Exec, Zeroed, LastReading, Crossed, Owned, OwnStub, BufferIs, LengthIs, OwnIn, HandedBack, HalfDone;
    StartIs(stubs, memory, t, id, i);
    ResultFrom(Start(stubs, memory), run, t, id, i, Reading(Null, []));
  }

  /** From any state the laws hold in. */
  lemma ResultFrom(start: State, run: seq<Event>, t: nat, id: nat, i: nat, r: Reading)
    requires Inv(start) && OwnIn(start, t, false) && Owned(start, id, i) && BufferIs(start, id, i, r)
    requires i < |start.bridge.stubs| ==> LengthIs(start, i, false)
    requires IsRun(start, run) && forall k :: 0 <= k < |run| ==> OwnStub(run[k], id, i)
    requires var s := Exec(start, run);
             && Enabled(s, TakeLen(t)) && !HalfDone(s.urb, i) && s.callers[t].call.waitAck && s.callers[t].call.stub == i
    ensures HandedBack(Exec(start, run), t, id, i, Zeroed(start, run, i, false), LastReading(start, run, id, i, r),
                       Crossed(start, run, t, false))
  {
    hide IsRun, Exec, Zeroed, LastReading, Crossed, Owned, OwnStub, BufferIs, LengthIs, OwnIn, HandedBack, HalfDone;
    hide MutexHeld, CallerOk, UrbOk, AcksOk;
    OwnRun(start, run, t, false);
    InvRun(start, run);
    StubTypesOf(start, run);
    hide Enabled;
    LengthRun(start, run, i, false);
    BufferRun(start, run, id, i, r);
    HandsBack(Exec(start, run), t, id, i, Zeroed(start, run, i, false), LastReading(start, run, id, i, r), Crossed(start, run, t, false));
  }

  lemma StartIs(stubs: seq<Stub>, memory: map<nat, seq<byte>>, t: nat, id: nat, i: nat)
    requires id in memory && forall j :: 0 <= j < |stubs| ==> stubs[j].ibuf == Null
    ensures var s := Start(stubs, memory);
            && Inv(s) && OwnIn(s, t, false) && Owned(s, id, i) && |s.bridge.stubs| == |stubs|
            && BufferIs(s, id, i, Reading(Null, [])) && (i < |stubs| ==> LengthIs(s, i, false))
  {
  }

  lemma HandsBack(s: State, t: nat, id: nat, i: nat, zeroed: bool, r: Reading, crossed: bool)
    requires Inv(s) && Enabled(s, TakeLen(t)) && !HalfDone(s.urb, i) && s.callers[t].call.waitAck && s.callers[t].call.stub == i
    requires i < |s.bridge.stubs| && LengthIs(s, i, zeroed) && BufferIs(s, id, i, r) && OwnIn(s, t, crossed)
    ensures HandedBack(s, t, id, i, zeroed, r, crossed)
  {
    TakesAnswer(s, t);
    assert Indexed(s);
    hide Inv, Enabled, Indexed, Validated, Data;
    var a := s.acks[i];
    assert s.bridge.stubs[i].ibufLen == |Data(a.raw)| <==> !zeroed || Data(a.raw) == [];
    assert !crossed ==> Answers(a.raw, s.bridge.stubs[i].typ, s.callers[t].call.cmd as int);
    hide OwnFor, OwnIn, LengthIs, Placed, Cleared, Answers, IsAck;
    if !s.bridge.overrun {
      assert Placed(s.bridge.memory[id], r, a.raw, id);
      PlacedBegins(s.bridge.memory[id], r, a.raw, id);
    }
  }

  lemma PlacedBegins(now: seq<byte>, r: Reading, raw: seq<byte>, id: nat)
    requires Placed(now, r, raw, id)
    ensures Data(raw) <= now <==> r.to == Buffer(id) || Data(raw) <= r.held
  {
    hide Data;
  }

  /**
   The other half, for the buffer: wherever a call can set its buffer while the completion is past its
   reading of another pointer, it can go on to return zero on that completion's acknowledgement with
   the buffer as it was.
   */
  lemma LateBufferStaysUnfilled(s: State, t: nat, id: nat) returns (run: seq<Event>, s': State)
    requires Indexed(s) && Enabled(s, SetBuffer(t)) && s.callers[t].call.waitAck && s.callers[t].call.ibuf == Buffer(id)
    requires PastPointer(s.urb, s.callers[t].call.stub) && !PointsAt(s.urb, id) && id in s.bridge.memory
    ensures Leads(s, run, s') && [SetBuffer(t)] <= run
    ensures t in s'.callers && Succeeded(s'.callers[t]) && s'.callers[t].call == s.callers[t].call
    ensures s.callers[t].call.stub in s'.acks && s'.acks[s.callers[t].call.stub].raw == s.urb.raw
    ensures id in s'.bridge.memory && s'.bridge.memory[id] == s.bridge.memory[id]
  {
    LeadsNowhere(s);
    hide Leads;
    run, s' := CallerGoes(s, [], s, SetBuffer(t));
    run, s' := CallerGoes(s, run, s', ClearAck(t));
    run, s' := FinishesElsewhere(s, run, s', t, id);
    run, s' := Succeeds(s, run, s', t);
  }

  /** The completion, past the pointer, runs to its end, and the buffer is not what it writes. */
  lemma FinishesElsewhere(s: State, run: seq<Event>, s1: State, t: nat, id: nat) returns (run': seq<Event>, s2: State)
    requires Leads(s, run, s1) && t in s1.callers && id in s1.bridge.memory
    requires (s1.urb.PointerRead? || s1.urb.Copied?) && !PointsAt(s1.urb, id)
    ensures Leads(s, run', s2) && run <= run'
    ensures t in s2.callers && s2.callers[t] == s1.callers[t]
    ensures var i := s1.urb.stub;
            && i < |s2.bridge.stubs| && s2.bridge.stubs[i].acked && i in s2.acks && s2.acks[i].raw == s1.urb.raw
    ensures id in s2.bridge.memory && s2.bridge.memory[id] == s1.bridge.memory[id]
  {
    hide Leads, Data;
    run', s2 := run, s1;
    if s2.urb.PointerRead? {
      run', s2 := UrbGoes(s, run', s2, UrbCopy, t);
    }
    run', s2 := UrbGoes(s, run', s2, UrbAck, t);
  }
}
